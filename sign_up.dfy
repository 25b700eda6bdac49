/** The sign-up page: eight text fields with one error flag each, the
    duplicate-username check, the email verification flow with its five-minute
    countdown, and the sequence of checks that guards the join request. */
module SignUp {
  import opened Forms
  import opened Validators

  /** The keys of the page's state object. */
  datatype Field = Username | Password | PasswordCheck | Email | Name | Birth | Gender | Code

  /** The order in which the state object's entries are enumerated: the order
      of the keys in the initial object, which every update keeps. */
  const Fields: seq<Field> := [Username, Password, PasswordCheck, Email, Name, Birth, Gender, Code]

  /** The one field the emptiness rule does not look at. */
  const NotRequired: set<Field> := {Code}

  /** Seconds on the countdown after every (re)start: five minutes. */
  const Countdown: nat := 300

  /** Where a field stands in Fields. */
  function Position(f: Field): (p: nat)
    ensures p < |Fields| && Fields[p] == f
  {
    match f
    case Username => 0
    case Password => 1
    case PasswordCheck => 2
    case Email => 3
    case Name => 4
    case Birth => 5
    case Gender => 6
    case Code => 7
  }

  /** `isDuplicated`: null before any answer, then the server's answer. */
  datatype DuplicateStatus = Unchecked | Taken | Available

  /** The requests the page sends. */
  datatype Request =
    | CheckUsername(username: string)
    | SendCode(email: string)
    | VerifyCode(email: string, code: string)
    | Join(username: string, password: string, email: string, name: string, birth: string, gender: string)

  /** The messages the page shows with `alert`. */
  datatype Alert =
    | UsernameInUse | UsernameFree | UsernameRule
    | CodeResent | CodeExpired
    | PasswordMismatch | DuplicateCheckNeeded | EmailCheckNeeded | Joined

  /** What a handler did outside the page's state: requests sent, messages
      shown, the field the page asks to focus and the page navigated to. */
  datatype Outcome = Outcome(sent: seq<Request>, alerts: seq<Alert>, focus: Option<Field>, navigateTo: Option<string>)

  const Quiet: Outcome := Outcome([], [], None, None)

  /** The reply to the duplicate-username request: the parsed answer, or an
      exception (a `SyntaxError` when the body did not parse). */
  datatype DuplicateReply = InUse | Free | DuplicateFailed(syntaxError: bool)

  /** The reply to the verification-code request: the parsed answer, or an exception. */
  datatype VerifyReply = CodeAccepted | CodeRejected | VerifyFailed

  /** Whether the join request completed or threw. */
  datatype JoinReply = JoinDelivered | JoinFailed

  /** The first check of the sign-up button that fails, or Submit. */
  datatype Verdict = MissingField(field: Field) | Mismatch | DuplicateId | NotCertified | Submit

  /** Every field has an entry. */
  predicate Total<T>(m: map<Field, T>)
  {
    forall f: Field :: f in m
  }

  /** Every field other than the code has a value. */
  predicate Filled(info: map<Field, string>)
    requires Total(info)
  {
    forall f: Field :: f !in NotRequired ==> info[f] != ""
  }

  /** The checks of `onSignUp`, in their order: an empty field, then a password
      mismatch, then a username known to be taken, then an unverified email.
      Each refusal names a check that really fails. */
  function SignUpVerdict(info: map<Field, string>, isDuplicated: DuplicateStatus, isCertifing: bool): (v: Verdict)
    requires Total(info)
    ensures v.MissingField? ==> v.field !in NotRequired && info[v.field] == ""
    ensures v == Mismatch ==> info[Password] != info[PasswordCheck]
    ensures v == DuplicateId ==> isDuplicated == Taken
    ensures v == NotCertified ==> !isCertifing
  {
    match FirstEmpty(Fields, info, NotRequired)
    case Some(f) => MissingField(f)
    case None =>
      if info[Password] != info[PasswordCheck] then Mismatch
      else if isDuplicated == Taken then DuplicateId
      else if !isCertifing then NotCertified
      else Submit
  }

  /** The emptiness rule fires exactly when some field other than the code is empty. */
  lemma FirstEmptyNoneIffFilled(info: map<Field, string>)
    requires Total(info)
    ensures Covers(Fields, info)
    ensures FirstEmpty(Fields, info, NotRequired).None? <==> Filled(info)
  {
    FirstEmptyNoneIff(Fields, info, NotRequired);
    if FirstEmpty(Fields, info, NotRequired).None? {
      forall f: Field | f !in NotRequired ensures info[f] != "" {
        assert !EmptyAt(Fields, info, NotRequired, Position(f));
      }
    }
  }

  /** The field the emptiness rule flags is empty, is not the code, and
      every field before it in the order username, password, passwordCheck,
      email, name, birth, gender has a value. */
  lemma FirstEmptyIsFirst(info: map<Field, string>)
    requires Total(info)
    ensures Covers(Fields, info)
    ensures FirstEmpty(Fields, info, NotRequired).Some? ==>
              var f := FirstEmpty(Fields, info, NotRequired).value;
              f !in NotRequired && info[f] == "" &&
              forall g: Field :: g !in NotRequired && Position(g) < Position(f) ==> info[g] != ""
  {
    if FirstEmpty(Fields, info, NotRequired).Some? {
      var f := FirstEmpty(Fields, info, NotRequired).value;
      FirstEmptySomeIsFirst(Fields, info, NotRequired);
      var i :| EmptyAt(Fields, info, NotRequired, i) && Fields[i] == f &&
               forall j :: 0 <= j < i ==> !EmptyAt(Fields, info, NotRequired, j);
      assert Position(f) == i;
      forall g: Field | g !in NotRequired && Position(g) < Position(f) ensures info[g] != "" {
        assert !EmptyAt(Fields, info, NotRequired, Position(g));
      }
    }
  }

  /** The join request goes out exactly when no field but the code is empty,
      the two passwords agree, the username is not known to be taken (an
      unchecked username passes) and the email has been verified. */
  lemma SignUpSubmitsIff(info: map<Field, string>, isDuplicated: DuplicateStatus, isCertifing: bool)
    requires Total(info)
    ensures SignUpVerdict(info, isDuplicated, isCertifing) == Submit <==>
            Filled(info) && info[Password] == info[PasswordCheck] &&
            isDuplicated != Taken && isCertifing
  {
    FirstEmptyNoneIffFilled(info);
  }

  /** Each check runs only when the earlier ones passed: the verdict names
      the first check that fails. */
  lemma SignUpVerdictOrder(info: map<Field, string>, isDuplicated: DuplicateStatus, isCertifing: bool)
    requires Total(info)
    ensures var v := SignUpVerdict(info, isDuplicated, isCertifing);
            (v.MissingField? <==> !Filled(info)) &&
            (v == Mismatch <==> Filled(info) && info[Password] != info[PasswordCheck]) &&
            (v == DuplicateId <==> Filled(info) && info[Password] == info[PasswordCheck] &&
                                   isDuplicated == Taken) &&
            (v == NotCertified <==> Filled(info) && info[Password] == info[PasswordCheck] &&
                                    isDuplicated != Taken && !isCertifing)
  {
    FirstEmptyNoneIffFilled(info);
  }

  class SignUpPage {
    var info: map<Field, string>
    var errors: map<Field, bool>
    var isDuplicated: DuplicateStatus
    /** The email has been verified. */
    var isCertifing: bool
    /** The verification-code dialog is open. */
    var isCertifyOpen: bool
    /** Seconds left on the countdown, and whether it is counting. */
    var remaining: nat
    var running: bool

    ghost predicate Valid()
      reads this
    {
      Total(info) && Total(errors) && remaining <= Countdown
    }

    /** The page as first rendered: every field empty, no error shown,
        nothing checked, the dialog closed and the countdown at 5:00, stopped. */
    constructor ()
      ensures Valid()
      ensures forall f: Field :: info[f] == "" && !errors[f]
      ensures isDuplicated == Unchecked && !isCertifing && !isCertifyOpen
      ensures remaining == Countdown && !running
    {
      forall f: Field ensures f in Fields {
        assert Fields[Position(f)] == f;
      }
      info := map f: Field | f in Fields :: "";
      errors := map f: Field | f in Fields :: false;
      isDuplicated := Unchecked;
      isCertifing := false;
      isCertifyOpen := false;
      remaining := Countdown;
      running := false;
    }

    /** `onChangeInput`: the named field takes the typed value; nothing else changes. */
    method OnChangeInput(value: string, field: Field)
      requires Valid()
      modifies this
      ensures Valid()
      ensures info == old(info)[field := value]
      ensures errors == old(errors) && isDuplicated == old(isDuplicated)
      ensures isCertifing == old(isCertifing) && isCertifyOpen == old(isCertifyOpen)
      ensures remaining == old(remaining) && running == old(running)
    {
      info := info[field := value];
    }

    /** `disappearError`: when the named field has a value its error flag is
        cleared, and for the username the duplicate answer is forgotten too;
        an empty field changes nothing. */
    method DisappearError(field: Field)
      requires Valid()
      modifies this
      ensures Valid()
      ensures info == old(info)
      ensures errors == if info[field] != "" then old(errors)[field := false] else old(errors)
      ensures isDuplicated == if info[field] != "" && field == Username then Unchecked else old(isDuplicated)
      ensures isCertifing == old(isCertifing) && isCertifyOpen == old(isCertifyOpen)
      ensures remaining == old(remaining) && running == old(running)
    {
      if info[field] != "" {
        if field == Username {
          isDuplicated := Unchecked;
        }
        errors := errors[field := false];
      }
    }

    /** The effect watching the password: a non-empty password has its error
        flag recomputed by the password check; an empty one leaves it alone. */
    method ValidatePassword()
      requires Valid()
      modifies this
      ensures Valid()
      ensures info == old(info)
      ensures errors == if info[Password] != ""
                        then old(errors)[Password := !PasswordOk(info[Password])] else old(errors)
      ensures isDuplicated == old(isDuplicated)
      ensures isCertifing == old(isCertifing) && isCertifyOpen == old(isCertifyOpen)
      ensures remaining == old(remaining) && running == old(running)
    {
      if |info[Password]| != 0 {
        errors := errors[Password := !PasswordOk(info[Password])];
      }
    }

    /** The effect watching the password confirmation: a non-empty
        confirmation is flagged exactly when it differs from the password; an
        empty one leaves the flag alone. */
    method ComparePasswordCheck()
      requires Valid()
      modifies this
      ensures Valid()
      ensures info == old(info)
      ensures errors == if info[PasswordCheck] != ""
                        then old(errors)[PasswordCheck := info[PasswordCheck] != info[Password]]
                        else old(errors)
      ensures isDuplicated == old(isDuplicated)
      ensures isCertifing == old(isCertifing) && isCertifyOpen == old(isCertifyOpen)
      ensures remaining == old(remaining) && running == old(running)
    {
      if |info[PasswordCheck]| != 0 {
        errors := errors[PasswordCheck := |info[PasswordCheck]| != 0 && info[Password] != info[PasswordCheck]];
      }
    }

    /** A keystroke in a field: `onChangeInput`, then, when the value actually
        changed, the effect that watches that field: the password check for
        the password, the comparison for the confirmation, `disappearError`
        for every other field. */
    method Edit(field: Field, value: string)
      requires Valid()
      modifies this
      ensures Valid()
      ensures info == old(info)[field := value]
      ensures errors == if value == old(info[field]) || value == "" then old(errors)
                        else if field == Password then old(errors)[Password := !PasswordOk(value)]
                        else if field == PasswordCheck then old(errors)[PasswordCheck := value != old(info[Password])]
                        else old(errors)[field := false]
      ensures isDuplicated == if field == Username && value != old(info[field]) && value != ""
                              then Unchecked else old(isDuplicated)
      ensures isCertifing == old(isCertifing) && isCertifyOpen == old(isCertifyOpen)
      ensures remaining == old(remaining) && running == old(running)
    {
      var before := info[field];
      OnChangeInput(value, field);
      if value != before {
        if field == Password {
          ValidatePassword();
        } else if field == PasswordCheck {
          ComparePasswordCheck();
        } else {
          DisappearError(field);
        }
      }
    }

    /** The effect watching the dialog flag: the code field and its error are reset. */
    method ResetCodeInput()
      requires Valid()
      modifies this
      ensures Valid()
      ensures info == old(info)[Code := ""]
      ensures errors == old(errors)[Code := false]
      ensures isDuplicated == old(isDuplicated)
      ensures isCertifing == old(isCertifing) && isCertifyOpen == old(isCertifyOpen)
      ensures remaining == old(remaining) && running == old(running)
    {
      errors := errors[Code := false];
      info := info[Code := ""];
    }

    /** `restartTimer`: the countdown starts again from five minutes. */
    method RestartTimer()
      requires Valid()
      modifies this
      ensures Valid()
      ensures remaining == Countdown && running
      ensures info == old(info) && errors == old(errors) && isDuplicated == old(isDuplicated)
      ensures isCertifing == old(isCertifing) && isCertifyOpen == old(isCertifyOpen)
    {
      remaining := Countdown;
      running := true;
    }

    /** One second passes: a running countdown loses a second and stops when
        it reaches zero; a stopped one is left as it is. */
    method Tick()
      requires Valid()
      modifies this
      ensures Valid()
      ensures remaining == if old(running) && old(remaining) > 0 then old(remaining) - 1 else old(remaining)
      ensures running == (old(running) && remaining > 0)
      ensures info == old(info) && errors == old(errors) && isDuplicated == old(isDuplicated)
      ensures isCertifing == old(isCertifing) && isCertifyOpen == old(isCertifyOpen)
    {
      if running && remaining > 0 {
        remaining := remaining - 1;
      }
      if remaining == 0 {
        running := false;
      }
    }

    /** `onCheckDuplicatedId`: a username the username check rejects is
        flagged and nothing is sent; otherwise the server's answer is recorded
        and announced. A failed request changes nothing and shows the username
        rule only when the reply did not parse. */
    method OnCheckDuplicatedId(reply: DuplicateReply) returns (outcome: Outcome)
      requires Valid()
      modifies this
      ensures Valid()
      ensures info == old(info)
      ensures !UsernameOk(info[Username]) ==>
                outcome == Quiet && errors == old(errors)[Username := true] &&
                isDuplicated == old(isDuplicated)
      ensures UsernameOk(info[Username]) ==>
                errors == old(errors) &&
                outcome.sent == [CheckUsername(info[Username])] &&
                outcome.focus.None? && outcome.navigateTo.None? &&
                match reply
                case InUse => isDuplicated == Taken && outcome.alerts == [UsernameInUse]
                case Free => isDuplicated == Available && outcome.alerts == [UsernameFree]
                case DuplicateFailed(syntaxError) =>
                  isDuplicated == old(isDuplicated) &&
                  outcome.alerts == if syntaxError then [UsernameRule] else []
      ensures isCertifing == old(isCertifing) && isCertifyOpen == old(isCertifyOpen)
      ensures remaining == old(remaining) && running == old(running)
    {
      if !UsernameOk(info[Username]) {
        errors := errors[Username := true];
        return Quiet;
      }
      var sent := [CheckUsername(info[Username])];
      match reply {
        case InUse =>
          isDuplicated := Taken;
          outcome := Outcome(sent, [UsernameInUse], None, None);
        case Free =>
          isDuplicated := Available;
          outcome := Outcome(sent, [UsernameFree], None, None);
        case DuplicateFailed(syntaxError) =>
          outcome := Outcome(sent, if syntaxError then [UsernameRule] else [], None, None);
      }
    }

    /** `onCertifyEmail`: the countdown restarts and a code is requested for
        the email as typed. */
    method OnCertifyEmail() returns (outcome: Outcome)
      requires Valid()
      modifies this
      ensures Valid()
      ensures outcome == Outcome([SendCode(info[Email])], [], None, None)
      ensures remaining == Countdown && running
      ensures info == old(info) && errors == old(errors) && isDuplicated == old(isDuplicated)
      ensures isCertifing == old(isCertifing) && isCertifyOpen == old(isCertifyOpen)
    {
      RestartTimer();
      outcome := Outcome([SendCode(info[Email])], [], None, None);
    }

    /** `onResendCertifyEmail`: announces the resend, restarts the countdown
        and requests a new code. */
    method OnResendCertifyEmail() returns (outcome: Outcome)
      requires Valid()
      modifies this
      ensures Valid()
      ensures outcome == Outcome([SendCode(info[Email])], [CodeResent], None, None)
      ensures remaining == Countdown && running
      ensures info == old(info) && errors == old(errors) && isDuplicated == old(isDuplicated)
      ensures isCertifing == old(isCertifing) && isCertifyOpen == old(isCertifyOpen)
    {
      RestartTimer();
      var certify := OnCertifyEmail();
      outcome := Outcome(certify.sent, [CodeResent], None, None);
    }

    /** `onToggleCertifyModal` (the verify button and the dialog's close
        button): an email the email check rejects is flagged and nothing else
        happens; otherwise a code is requested, the countdown restarts, the
        dialog opens or closes, and its code field is reset. */
    method OnToggleCertifyModal() returns (outcome: Outcome)
      requires Valid()
      modifies this
      ensures Valid()
      ensures isDuplicated == old(isDuplicated) && isCertifing == old(isCertifing)
      ensures !EmailOk(old(info[Email])) ==>
                outcome == Quiet && errors == old(errors)[Email := true] && info == old(info) &&
                isCertifyOpen == old(isCertifyOpen) &&
                remaining == old(remaining) && running == old(running)
      ensures EmailOk(old(info[Email])) ==>
                outcome == Outcome([SendCode(old(info[Email]))], [], None, None) &&
                isCertifyOpen == !old(isCertifyOpen) &&
                remaining == Countdown && running &&
                info == old(info)[Code := ""] && errors == old(errors)[Code := false]
    {
      if !EmailOk(info[Email]) {
        errors := errors[Email := true];
        return Quiet;
      }
      outcome := OnCertifyEmail();
      isCertifyOpen := !isCertifyOpen;
      ResetCodeInput();
    }

    /** `onSendCertifyNumber`: with the countdown at 0:00 only the expiry is
        announced; an empty code is flagged; otherwise the code is sent, and
        an accepted code closes the dialog, clears the code error, marks the
        email verified and stops the countdown, while a rejected code or a
        failed request flags the code. */
    method OnSendCertifyNumber(reply: VerifyReply) returns (outcome: Outcome)
      requires Valid()
      modifies this
      ensures Valid()
      ensures isDuplicated == old(isDuplicated) && remaining == old(remaining)
      ensures old(remaining) == 0 ==>
                outcome == Outcome([], [CodeExpired], None, None) &&
                info == old(info) && errors == old(errors) &&
                isCertifing == old(isCertifing) && isCertifyOpen == old(isCertifyOpen) &&
                running == old(running)
      ensures old(remaining) != 0 && old(info[Code]) == "" ==>
                outcome == Quiet &&
                info == old(info) && errors == old(errors)[Code := true] &&
                isCertifing == old(isCertifing) && isCertifyOpen == old(isCertifyOpen) &&
                running == old(running)
      ensures old(remaining) != 0 && old(info[Code]) != "" ==>
                outcome == Outcome([VerifyCode(old(info[Email]), old(info[Code]))], [], None, None)
      ensures old(remaining) != 0 && old(info[Code]) != "" && reply == CodeAccepted ==>
                !isCertifyOpen && isCertifing && !running && !errors[Code] &&
                errors == old(errors)[Code := false] &&
                info == if old(isCertifyOpen) then old(info)[Code := ""] else old(info)
      ensures old(remaining) != 0 && old(info[Code]) != "" && reply != CodeAccepted ==>
                errors == old(errors)[Code := true] && info == old(info) &&
                isCertifing == old(isCertifing) && isCertifyOpen == old(isCertifyOpen) &&
                running == old(running)
    {
      if remaining == 0 {
        return Outcome([], [CodeExpired], None, None);
      }
      if |info[Code]| == 0 {
        errors := errors[Code := true];
        return Quiet;
      }
      outcome := Outcome([VerifyCode(info[Email], info[Code])], [], None, None);
      if reply == CodeAccepted {
        var wasOpen := isCertifyOpen;
        isCertifyOpen := false;
        errors := errors[Code := false];
        isCertifing := true;
        running := false;
        if wasOpen {
          ResetCodeInput();
        }
      } else {
        errors := errors[Code := true];
      }
    }

    /** `checkEmptyInputAndFocus`: walks the fields in order, skipping the
        code, and at the first empty one raises its error flag, returns it as
        the field to focus and reports true. */
    method CheckEmptyInputAndFocus() returns (empty: bool, focus: Option<Field>)
      requires Valid()
      modifies this
      ensures Valid()
      ensures Covers(Fields, info) && focus == FirstEmpty(Fields, info, NotRequired)
      ensures empty == focus.Some?
      ensures errors == if empty then old(errors)[focus.value := true] else old(errors)
      ensures info == old(info) && isDuplicated == old(isDuplicated)
      ensures isCertifing == old(isCertifing) && isCertifyOpen == old(isCertifyOpen)
      ensures remaining == old(remaining) && running == old(running)
    {
      var i := 0;
      while i < |Fields|
        invariant 0 <= i <= |Fields|
        invariant Covers(Fields, info) && Covers(Fields[i..], info)
        invariant FirstEmpty(Fields, info, NotRequired) == FirstEmpty(Fields[i..], info, NotRequired)
        invariant unchanged(this)
      {
        var field := Fields[i];
        if field != Code && |info[field]| == 0 {
          errors := errors[field := true];
          return true, Some(field);
        }
        FirstEmptySuffix(Fields, info, NotRequired, i);
        i := i + 1;
      }
      return false, None;
    }

    /** `onSignUp`: the checks of SignUpVerdict in their order, the first that
        fails stopping the handler with its message; when all pass, the join
        request is sent and, if it completes, "joined" is shown and the page
        moves to the sign-in page. */
    method OnSignUp(reply: JoinReply) returns (outcome: Outcome)
      requires Valid()
      modifies this
      ensures Valid()
      ensures info == old(info) && isDuplicated == old(isDuplicated)
      ensures isCertifing == old(isCertifing) && isCertifyOpen == old(isCertifyOpen)
      ensures remaining == old(remaining) && running == old(running)
      ensures var v := SignUpVerdict(info, isDuplicated, isCertifing);
              match v
              case MissingField(f) =>
                outcome == Outcome([], [], Some(f), None) && errors == old(errors)[f := true]
              case Mismatch => outcome == Outcome([], [PasswordMismatch], None, None) && errors == old(errors)
              case DuplicateId => outcome == Outcome([], [DuplicateCheckNeeded], None, None) && errors == old(errors)
              case NotCertified => outcome == Outcome([], [EmailCheckNeeded], None, None) && errors == old(errors)
              case Submit =>
                errors == old(errors) &&
                outcome.sent == [Join(info[Username], info[Password], info[Email],
                                      info[Name], info[Birth], info[Gender])] &&
                outcome.focus.None? &&
                (reply == JoinDelivered ==> outcome.alerts == [Joined] && outcome.navigateTo == Some("/sign-in")) &&
                (reply == JoinFailed ==> outcome.alerts == [] && outcome.navigateTo.None?)
    {
      var empty, focus := CheckEmptyInputAndFocus();
      if empty {
        return Outcome([], [], focus, None);
      }
      if info[Password] != info[PasswordCheck] {
        return Outcome([], [PasswordMismatch], None, None);
      }
      if isDuplicated == Taken {
        return Outcome([], [DuplicateCheckNeeded], None, None);
      }
      if !isCertifing {
        return Outcome([], [EmailCheckNeeded], None, None);
      }
      var join := Join(info[Username], info[Password], info[Email], info[Name], info[Birth], info[Gender]);
      if reply == JoinDelivered {
        outcome := Outcome([join], [Joined], None, Some("/sign-in"));
      } else {
        outcome := Outcome([join], [], None, None);
      }
    }
  }
}
