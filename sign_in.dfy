/** The sign-in page: two text fields with one error flag each, the rule that
    refuses to log in while a field is empty, and the extraction of the access
    token from the `Authorization` header of the login reply. */
module SignIn {
  import opened Forms

  /** The keys of the page's state object, `{ username, password }`. */
  datatype Field = Username | Password

  /** The order in which the state object's entries are enumerated: the order
      of the keys in the initial object. */
  const Fields: seq<Field> := [Username, Password]

  /** Lifetime of the access-token cookie in seconds: `60 * 60 * 10`. */
  const CookieMaxAge: nat := 36000

  // ---------------------------------------------------------------------------
  // The Authorization header

  /** `s.split(sep)` for a one-character separator: the pieces between
      consecutive separators, empty pieces kept, so there is always one more
      piece than there are separators. */
  function Split(s: string, sep: char): (parts: seq<string>)
    ensures |parts| >= 1
  {
    if s == [] then [""]
    else
      var rest := Split(s[1..], sep);
      if s[0] == sep then [""] + rest
      else [[s[0]] + rest[0]] + rest[1..]
  }

  /** The inverse of Split: the pieces written out with the separator between
      consecutive ones. */
  function Join(parts: seq<string>, sep: char): string
  {
    if parts == [] then ""
    else if |parts| == 1 then parts[0]
    else parts[0] + [sep] + Join(parts[1..], sep)
  }

  /** Splitting loses nothing: joining the pieces gives the string back, and
      no piece contains the separator. */
  lemma {:induction false} SplitJoin(s: string, sep: char)
    ensures Join(Split(s, sep), sep) == s
    ensures forall i :: 0 <= i < |Split(s, sep)| ==> sep !in Split(s, sep)[i]
  {
    if s != [] {
      SplitJoin(s[1..], sep);
      var rest := Split(s[1..], sep);
      if s[0] == sep {
        assert Split(s, sep) == [""] + rest;
        assert s == [sep] + s[1..];
      } else {
        var parts := Split(s, sep);
        assert parts == [[s[0]] + rest[0]] + rest[1..];
        if |rest| == 1 {
          assert s == [s[0]] + rest[0];
        } else {
          assert Join(rest, sep) == rest[0] + [sep] + Join(rest[1..], sep);
          assert parts[1..] == rest[1..];
          assert s == [s[0]] + s[1..];
        }
        forall i | 0 <= i < |parts| ensures sep !in parts[i] {
          if i > 0 { assert parts[i] == rest[i]; }
        }
      }
    }
  }

  /** A leading piece without the separator, then the separator, splits off
      as the first piece. */
  lemma {:induction false} SplitAfter(a: string, sep: char, b: string)
    requires sep !in a
    ensures Split(a + [sep] + b, sep) == [a] + Split(b, sep)
  {
    if a == [] {
      assert a + [sep] + b == [sep] + b;
    } else {
      SplitAfter(a[1..], sep, b);
      assert (a + [sep] + b)[1..] == a[1..] + [sep] + b;
      assert [a[0]] + a[1..] == a;
    }
  }

  /** A string without the separator is a single piece. */
  lemma {:induction false} SplitWhole(a: string, sep: char)
    requires sep !in a
    ensures Split(a, sep) == [a]
  {
    if a != [] {
      SplitWhole(a[1..], sep);
      assert [a[0]] + a[1..] == a;
    }
  }

  /** `response.headers.get('Authorization')?.split(' ')[1]`, kept only when
      it is a non-empty string (the `if (accessToken)` test): the second
      space-separated piece of the header. */
  function AccessToken(authorization: Option<string>): (token: Option<string>)
    ensures authorization.None? ==> token.None?
    ensures token.Some? ==> token.value != "" && ' ' !in token.value
  {
    match authorization
    case None => None
    case Some(h) =>
      var parts := Split(h, ' ');
      SplitJoin(h, ' ');
      if |parts| >= 2 && parts[1] != "" then Some(parts[1]) else None
  }

  /** In header `h`, a scheme without spaces ends at position `i`, a space
      follows, and then comes `t`, which has no space and is followed by the
      end of the header or by a space. */
  predicate TokenAt(h: string, i: int, t: string)
  {
    0 <= i < |h| && ' ' !in h[..i] && h[i] == ' ' &&
    i + 1 + |t| <= |h| && h[i + 1..i + 1 + |t|] == t && ' ' !in t &&
    (i + 1 + |t| == |h| || h[i + 1 + |t|] == ' ')
  }

  /** A non-empty token in second position is the one extracted. */
  lemma TokenAtExtracted(h: string, i: int, t: string)
    requires TokenAt(h, i, t) && t != ""
    ensures AccessToken(Some(h)) == Some(t)
  {
    var j := i + 1 + |t|;
    assert h == h[..i] + [' '] + h[i + 1..];
    SplitAfter(h[..i], ' ', h[i + 1..]);
    if j == |h| {
      assert h[i + 1..] == t;
      SplitWhole(t, ' ');
    } else {
      assert h[i + 1..] == t + [' '] + h[j + 1..];
      SplitAfter(t, ' ', h[j + 1..]);
    }
  }

  /** An extracted token is the second space-separated piece of the header. */
  lemma ExtractedTokenAt(h: string, t: string)
    requires AccessToken(Some(h)) == Some(t)
    ensures TokenAt(h, |Split(h, ' ')[0]|, t)
  {
    var parts := Split(h, ' ');
    SplitJoin(h, ' ');
    var i := |parts[0]|;
    assert h == parts[0] + [' '] + Join(parts[1..], ' ');
    var tail := Join(parts[1..], ' ');
    if |parts| == 2 {
      assert tail == t;
    } else {
      assert tail == t + [' '] + Join(parts[2..], ' ');
    }
    assert h[..i] == parts[0];
    assert h[i + 1..] == tail;
    assert h[i + 1..i + 1 + |t|] == t;
  }

  /** The token extracted from a present header, both directions: it is `t`
      exactly when `t` is non-empty and stands, between the first space and
      the next space or the end, as the header's second piece. */
  lemma AccessTokenIff(h: string, t: string)
    ensures AccessToken(Some(h)) == Some(t) <==> t != "" && exists i :: TokenAt(h, i, t)
  {
    if AccessToken(Some(h)) == Some(t) {
      ExtractedTokenAt(h, t);
    }
    if t != "" && exists i :: TokenAt(h, i, t) {
      var i :| TokenAt(h, i, t);
      TokenAtExtracted(h, i, t);
    }
  }

  /** A header without a space, such as a bare token, yields no token. */
  lemma NoSpaceNoToken(h: string)
    requires ' ' !in h
    ensures AccessToken(Some(h)).None?
  {
    SplitWhole(h, ' ');
  }

  // ---------------------------------------------------------------------------
  // The page

  /** The cookie the page stores on a successful login. */
  datatype Cookie = Cookie(name: string, value: string, maxAge: nat)

  /** What the login request brought back: the reply's `Authorization`
      header (absent or present), or an exception thrown by `fetch`. */
  datatype LoginReply = Responded(authorization: Option<string>) | NetworkError

  /** The form posted to `/api/login`: the two typed values. */
  datatype LoginRequest = LoginRequest(username: string, password: string)

  /** What pressing the login button did, beyond the error flags. Every
      outcome but the first carries the request that was sent. */
  datatype SignInOutcome =
    | MissingField(focus: Field)                    // an empty field was flagged and is the field to focus; nothing was sent
    | LoggedIn(sent: LoginRequest, cookie: Cookie)  // the cookie was stored, "logged in" shown, navigation to "/"
    | LoginFailed(sent: LoginRequest)               // no usable token: "login failed" shown, no cookie
    | RequestFailed(sent: LoginRequest)             // the request threw; the error is only logged

  /** Both fields have an entry. */
  predicate Total<T>(m: map<Field, T>)
  {
    Username in m && Password in m
  }

  /** The emptiness rule of the page, stated on its own: the first empty
      field in the order username, password, if any. */
  lemma SignInEmptyRule(info: map<Field, string>)
    requires Total(info)
    ensures Covers(Fields, info)
    ensures FirstEmpty(Fields, info, {}).Some? <==> info[Username] == "" || info[Password] == ""
    ensures info[Username] == "" ==> FirstEmpty(Fields, info, {}) == Some(Username)
    ensures info[Username] != "" && info[Password] == "" ==> FirstEmpty(Fields, info, {}) == Some(Password)
  {
    assert Fields[1..] == [Password] && Fields[1..][1..] == [];
    assert FirstEmpty(Fields[1..], info, {}) ==
           if info[Password] == "" then Some(Password) else FirstEmpty([], info, {});
  }

  class SignInPage {
    var info: map<Field, string>
    var errors: map<Field, bool>

    ghost predicate Valid()
      reads this
    {
      Total(info) && Total(errors)
    }

    /** The page as first rendered: both fields empty, no error shown. */
    constructor ()
      ensures Valid()
      ensures info == map[Username := "", Password := ""]
      ensures errors == map[Username := false, Password := false]
    {
      info := map[Username := "", Password := ""];
      errors := map[Username := false, Password := false];
    }

    /** `onChangeInput`: the named field takes the typed value; nothing else changes. */
    method OnChangeInput(value: string, field: Field)
      requires Valid()
      modifies this
      ensures Valid()
      ensures info == old(info)[field := value]
      ensures errors == old(errors)
    {
      info := info[field := value];
    }

    /** `disappearError`: a non-empty field loses its error flag; an empty
        field keeps it, and the other flag never changes. */
    method DisappearError(field: Field)
      requires Valid()
      modifies this
      ensures Valid()
      ensures info == old(info)
      ensures errors == if info[field] != "" then old(errors)[field := false] else old(errors)
    {
      if info[field] != "" {
        errors := errors[field := false];
      }
    }

    /** A keystroke in a field: `onChangeInput`, then, when the value actually
        changed, the effect that watches that field, which is `disappearError`. */
    method Edit(field: Field, value: string)
      requires Valid()
      modifies this
      ensures Valid()
      ensures info == old(info)[field := value]
      ensures errors == if value != old(info[field]) && value != ""
                        then old(errors)[field := false] else old(errors)
    {
      var before := info[field];
      OnChangeInput(value, field);
      if value != before {
        DisappearError(field);
      }
    }

    /** `checkEmptyInputAndFocus`: walks the fields in order and, at the first
        empty one, raises its error flag, returns it as the field to focus and
        reports true. */
    method CheckEmptyInputAndFocus() returns (empty: bool, focus: Option<Field>)
      requires Valid()
      modifies this
      ensures Valid()
      ensures info == old(info)
      ensures Covers(Fields, info) && focus == FirstEmpty(Fields, info, {})
      ensures empty == focus.Some?
      ensures errors == if empty then old(errors)[focus.value := true] else old(errors)
    {
      var i := 0;
      while i < |Fields|
        invariant 0 <= i <= |Fields|
        invariant Covers(Fields, info) && Covers(Fields[i..], info)
        invariant FirstEmpty(Fields, info, {}) == FirstEmpty(Fields[i..], info, {})
        invariant info == old(info) && errors == old(errors)
      {
        var field := Fields[i];
        if info[field] == "" {
          errors := errors[field := true];
          return true, Some(field);
        }
        FirstEmptySuffix(Fields, info, {}, i);
        i := i + 1;
      }
      return false, None;
    }

    /** `onSignIn`: the emptiness rule first; only with both fields filled is
        the login request (username, password) sent, and the reply decides
        whether the access-token cookie is stored. */
    method OnSignIn(reply: LoginReply) returns (outcome: SignInOutcome)
      requires Valid()
      modifies this
      ensures Valid()
      ensures info == old(info)
      ensures outcome.MissingField? <==> info[Username] == "" || info[Password] == ""
      ensures outcome.MissingField? ==>
                outcome.focus == (if info[Username] == "" then Username else Password) &&
                errors == old(errors)[outcome.focus := true]
      ensures !outcome.MissingField? ==> errors == old(errors)
      ensures !outcome.MissingField? ==>
                var sent := LoginRequest(info[Username], info[Password]);
                outcome == match reply
                           case NetworkError => RequestFailed(sent)
                           case Responded(h) =>
                             match AccessToken(h)
                             case Some(t) => LoggedIn(sent, Cookie("accessToken", t, CookieMaxAge))
                             case None => LoginFailed(sent)
    {
      SignInEmptyRule(info);
      var empty, focus := CheckEmptyInputAndFocus();
      if empty {
        return MissingField(focus.value);
      }
      // The two further emptiness checks of the handler cannot fire here.
      if info[Username] == "" || info[Password] == "" {
        assert false;
      }
      var sent := LoginRequest(info[Username], info[Password]);
      match reply {
        case NetworkError =>
          outcome := RequestFailed(sent);
        case Responded(h) =>
          var token := AccessToken(h);
          if token.Some? {
            outcome := LoggedIn(sent, Cookie("accessToken", token.value, CookieMaxAge));
          } else {
            outcome := LoginFailed(sent);
          }
      }
    }
  }
}
