/** The three input checks of the sign-up form, each written as a direct
    predicate over characters instead of a regular expression:

      username  /^(?=.*[a-z])(?=.*[0-9])[a-z0-9]{3,16}$/
      password  /^(?=.*[a-z])(?=.*[A-Z])(?=.*\d)(?=.*[@#$%^&+=!]).{8,16}$/
      email     /^[0-9a-zA-Z]([-_\.]?[0-9a-zA-Z])*@[0-9a-zA-Z]([-_\.]?[0-9a-zA-Z])*\.[a-zA-Z]{2,3}$/i

    The username and password checks are single left-to-right scans; the
    email check splits the address at its first `@` and tests the two pieces.
    Each check is proved equal to a declarative description of the strings
    its expression accepts. */
module Validators {
  import opened Forms

  // ---------------------------------------------------------------------------
  // Character classes

  predicate IsLower(c: char) { 'a' <= c <= 'z' }
  predicate IsUpper(c: char) { 'A' <= c <= 'Z' }
  predicate IsDigit(c: char) { '0' <= c <= '9' }
  predicate IsLetter(c: char) { IsLower(c) || IsUpper(c) }
  predicate IsAlnum(c: char) { IsLetter(c) || IsDigit(c) }

  /** `[@#$%^&+=!]`: the special characters a password must contain one of. */
  predicate IsSpecial(c: char) { c in "@#$%^&+=!" }

  /** `[-_\.]`: the characters that may join two alphanumeric runs of an email. */
  predicate IsSeparator(c: char) { c == '-' || c == '_' || c == '.' }

  /** The characters the `.` of a JavaScript expression without the `s` flag
      does not match. */
  predicate IsLineTerminator(c: char)
  {
    c == '\n' || c == '\r' || c == '\U{2028}' || c == '\U{2029}'
  }

  // ---------------------------------------------------------------------------
  // Declarative descriptions

  predicate HasLower(s: string) { exists i :: 0 <= i < |s| && IsLower(s[i]) }
  predicate HasUpper(s: string) { exists i :: 0 <= i < |s| && IsUpper(s[i]) }
  predicate HasDigit(s: string) { exists i :: 0 <= i < |s| && IsDigit(s[i]) }
  predicate HasSpecial(s: string) { exists i :: 0 <= i < |s| && IsSpecial(s[i]) }

  predicate AllUsernameChars(s: string)
  {
    forall i :: 0 <= i < |s| ==> IsLower(s[i]) || IsDigit(s[i])
  }

  predicate NoLineTerminator(s: string)
  {
    forall i :: 0 <= i < |s| ==> !IsLineTerminator(s[i])
  }

  predicate AllLetters(s: string)
  {
    forall i :: 0 <= i < |s| ==> IsLetter(s[i])
  }

  predicate AllWordChars(s: string)
  {
    forall i :: 0 <= i < |s| ==> IsAlnum(s[i]) || IsSeparator(s[i])
  }

  /** No separator is directly followed by another one. */
  predicate NoDoubleSeparator(s: string)
  {
    forall i :: 0 <= i < |s| - 1 ==> !(IsSeparator(s[i]) && IsSeparator(s[i + 1]))
  }

  /** The strings `[0-9a-zA-Z]([-_\.]?[0-9a-zA-Z])*` describes: alphanumeric
      runs joined by single separators. */
  predicate WordShape(w: string)
  {
    |w| > 0 && IsAlnum(w[0]) && IsAlnum(w[|w| - 1]) &&
    AllWordChars(w) && NoDoubleSeparator(w)
  }

  // ---------------------------------------------------------------------------
  // Username

  /** The scan behind the username expression: every character is in
      `[a-z0-9]`, and the two lookaheads find a lowercase letter and a digit
      (the flags say whether the part already read had one). */
  function ScanUsername(s: string, sawLower: bool, sawDigit: bool): bool
  {
    if s == [] then sawLower && sawDigit
    else
      (IsLower(s[0]) || IsDigit(s[0])) &&
      ScanUsername(s[1..], sawLower || IsLower(s[0]), sawDigit || IsDigit(s[0]))
  }

  /** The username check run before the duplicate-username request. It
      accepts exactly the strings of 3 to 16 characters, all in `[a-z0-9]`,
      with at least one lowercase letter and one digit. */
  function UsernameOk(s: string): (r: bool)
    ensures r <==> 3 <= |s| <= 16 && AllUsernameChars(s) && HasLower(s) && HasDigit(s)
  {
    ScanUsernameMeaning(s, false, false);
    3 <= |s| <= 16 && ScanUsername(s, false, false)
  }

  lemma {:induction false} ScanUsernameMeaning(s: string, sawLower: bool, sawDigit: bool)
    ensures ScanUsername(s, sawLower, sawDigit) <==>
            AllUsernameChars(s) && (sawLower || HasLower(s)) && (sawDigit || HasDigit(s))
  {
    if s != [] {
      var c := s[0];
      ScanUsernameMeaning(s[1..], sawLower || IsLower(c), sawDigit || IsDigit(c));
      assert forall i :: 1 <= i < |s| ==> s[1..][i - 1] == s[i];
      assert HasLower(s) <==> IsLower(c) || HasLower(s[1..]) by {
        if HasLower(s) && !IsLower(c) {
          var i :| 0 <= i < |s| && IsLower(s[i]);
          assert IsLower(s[1..][i - 1]);
        }
        if HasLower(s[1..]) {
          var i :| 0 <= i < |s[1..]| && IsLower(s[1..][i]);
          assert IsLower(s[i + 1]);
        }
      }
      assert HasDigit(s) <==> IsDigit(c) || HasDigit(s[1..]) by {
        if HasDigit(s) && !IsDigit(c) {
          var i :| 0 <= i < |s| && IsDigit(s[i]);
          assert IsDigit(s[1..][i - 1]);
        }
        if HasDigit(s[1..]) {
          var i :| 0 <= i < |s[1..]| && IsDigit(s[1..][i]);
          assert IsDigit(s[i + 1]);
        }
      }
      assert AllUsernameChars(s) <==> (IsLower(c) || IsDigit(c)) && AllUsernameChars(s[1..]);
    }
  }

  // ---------------------------------------------------------------------------
  // Password

  /** The scan behind the password expression: no character is a line
      terminator (the `.`), and the four lookaheads find a lowercase letter,
      an uppercase letter, a digit and a special character. */
  function ScanPassword(s: string, sawLower: bool, sawUpper: bool, sawDigit: bool, sawSpecial: bool): bool
  {
    if s == [] then sawLower && sawUpper && sawDigit && sawSpecial
    else
      !IsLineTerminator(s[0]) &&
      ScanPassword(s[1..], sawLower || IsLower(s[0]), sawUpper || IsUpper(s[0]),
                   sawDigit || IsDigit(s[0]), sawSpecial || IsSpecial(s[0]))
  }


  /** Reading one character more decides each `Has` property by that
      character or by the rest. */
  lemma HasUnfold(s: string)
    requires s != []
    ensures HasLower(s) <==> IsLower(s[0]) || HasLower(s[1..])
    ensures HasUpper(s) <==> IsUpper(s[0]) || HasUpper(s[1..])
    ensures HasDigit(s) <==> IsDigit(s[0]) || HasDigit(s[1..])
    ensures HasSpecial(s) <==> IsSpecial(s[0]) || HasSpecial(s[1..])
    ensures NoLineTerminator(s) <==> !IsLineTerminator(s[0]) && NoLineTerminator(s[1..])
  {
    assert forall i :: 1 <= i < |s| ==> s[1..][i - 1] == s[i];
    assert forall i :: 0 <= i < |s| - 1 ==> s[1..][i] == s[i + 1];
  }

  lemma {:induction false} ScanPasswordMeaning(s: string, sawLower: bool, sawUpper: bool, sawDigit: bool, sawSpecial: bool)
    ensures ScanPassword(s, sawLower, sawUpper, sawDigit, sawSpecial) <==>
            NoLineTerminator(s) &&
            (sawLower || HasLower(s)) && (sawUpper || HasUpper(s)) &&
            (sawDigit || HasDigit(s)) && (sawSpecial || HasSpecial(s))
  {
    if s != [] {
      var c := s[0];
      ScanPasswordMeaning(s[1..], sawLower || IsLower(c), sawUpper || IsUpper(c),
                          sawDigit || IsDigit(c), sawSpecial || IsSpecial(c));
      HasUnfold(s);
    }
  }

  /** The password check the form re-runs whenever the password changes. It
      accepts exactly the strings of 8 to 16 characters, none a line
      terminator, with a lowercase letter, an uppercase letter, a digit and
      one of `@#$%^&+=!`. */
  function PasswordOk(s: string): (r: bool)
    ensures r <==> 8 <= |s| <= 16 && NoLineTerminator(s) &&
                   HasLower(s) && HasUpper(s) && HasDigit(s) && HasSpecial(s)
  {
    ScanPasswordMeaning(s, false, false, false, false);
    8 <= |s| <= 16 && ScanPassword(s, false, false, false, false)
  }

  // ---------------------------------------------------------------------------
  // Email

  /** `([-_\.]?[0-9a-zA-Z])*`: repeated optional separator then alphanumeric. */
  function WordTail(t: string): bool
    decreases |t|
  {
    if t == [] then true
    else if IsAlnum(t[0]) then WordTail(t[1..])
    else IsSeparator(t[0]) && |t| >= 2 && IsAlnum(t[1]) && WordTail(t[2..])
  }

  /** `[0-9a-zA-Z]([-_\.]?[0-9a-zA-Z])*`, the shape of both the part before
      the `@` and the domain before its final dot. */
  function IsWord(w: string): bool
  {
    |w| > 0 && IsAlnum(w[0]) && WordTail(w[1..])
  }

  /** The domain part ends in a dot and `n` letters, and what comes before
      that dot is a word. */
  predicate DomainEndsIn(d: string, n: nat)
  {
    |d| > n && d[|d| - n - 1] == '.' && AllLetters(d[|d| - n..]) && IsWord(d[..|d| - n - 1])
  }

  /** `[0-9a-zA-Z]([-_\.]?[0-9a-zA-Z])*\.[a-zA-Z]{2,3}$` on the text after the `@`. */
  predicate IsDomain(d: string)
  {
    DomainEndsIn(d, 2) || DomainEndsIn(d, 3)
  }

  /** Position of the first `c` in `s`. */
  function IndexOf(s: string, c: char): (r: Option<nat>)
    ensures r.Some? ==> r.value < |s| && s[r.value] == c && c !in s[..r.value]
    ensures r.None? ==> c !in s
  {
    if s == [] then None
    else if s[0] == c then Some(0)
    else match IndexOf(s[1..], c)
      case None => None
      case Some(i) => assert s[..i + 1] == [s[0]] + s[1..][..i]; Some(i + 1)
  }

  /** The email check run before a verification code is sent. A word has no
      `@`, so the expression can only split the address at its first `@`.
      The check accepts `s` exactly when it splits as word `@` word `.` two
      or three letters. */
  function EmailOk(s: string): (r: bool)
    ensures r <==> exists at, dot :: EmailParts(s, at, dot)
  {
    PartsAtFirstAt(s);
    match IndexOf(s, '@')
    case None => false
    case Some(at) => DomainSplits(s, at); IsWord(s[..at]) && IsDomain(s[at + 1..])
  }

  /** `s` splits as word `@` word `.` two or three letters, with the `@` at
      `at` and the last dot at `dot`: the language the email expression
      describes, written out piece by piece. */
  predicate EmailParts(s: string, at: int, dot: int)
  {
    0 <= at < dot < |s| && s[at] == '@' && s[dot] == '.' &&
    IsWord(s[..at]) && IsWord(s[at + 1..dot]) &&
    2 <= |s| - dot - 1 <= 3 && AllLetters(s[dot + 1..])
  }

  lemma {:induction false} WordTailMeaning(t: string)
    ensures WordTail(t) <==>
            AllWordChars(t) && NoDoubleSeparator(t) && (t != [] ==> IsAlnum(t[|t| - 1]))
    decreases |t|
  {
    if t == [] {
    } else if IsAlnum(t[0]) {
      WordTailMeaning(t[1..]);
      assert forall i :: 0 <= i < |t| - 1 ==> t[1..][i] == t[i + 1];
      if t[1..] != [] && AllWordChars(t[1..]) && NoDoubleSeparator(t[1..]) {
        assert t[|t| - 1] == t[1..][|t[1..]| - 1];
      }
      assert AllWordChars(t) <==> AllWordChars(t[1..]) by {
        if AllWordChars(t[1..]) {
          forall i | 0 <= i < |t| ensures IsAlnum(t[i]) || IsSeparator(t[i]) {
            if i > 0 { assert t[i] == t[1..][i - 1]; }
          }
        }
      }
      assert NoDoubleSeparator(t) <==> NoDoubleSeparator(t[1..]) by {
        if NoDoubleSeparator(t[1..]) {
          forall i | 0 <= i < |t| - 1 ensures !(IsSeparator(t[i]) && IsSeparator(t[i + 1])) {
            if i > 0 { assert t[i] == t[1..][i - 1] && t[i + 1] == t[1..][i]; }
          }
        }
      }
    } else if IsSeparator(t[0]) && |t| >= 2 && IsAlnum(t[1]) {
      WordTailMeaning(t[2..]);
      assert forall i :: 0 <= i < |t| - 2 ==> t[2..][i] == t[i + 2];
      if t[2..] != [] && AllWordChars(t[2..]) && NoDoubleSeparator(t[2..]) {
        assert t[|t| - 1] == t[2..][|t[2..]| - 1];
      }
      assert AllWordChars(t) <==> AllWordChars(t[2..]) by {
        if AllWordChars(t[2..]) {
          forall i | 0 <= i < |t| ensures IsAlnum(t[i]) || IsSeparator(t[i]) {
            if i > 1 { assert t[i] == t[2..][i - 2]; }
          }
        }
      }
      assert NoDoubleSeparator(t) <==> NoDoubleSeparator(t[2..]) by {
        if NoDoubleSeparator(t[2..]) {
          forall i | 0 <= i < |t| - 1 ensures !(IsSeparator(t[i]) && IsSeparator(t[i + 1])) {
            if i > 1 { assert t[i] == t[2..][i - 2] && t[i + 1] == t[2..][i - 1]; }
          }
        }
      }
    } else {
      // t[0] is not a word character, or it is the last one, or what
      // follows it is not a word character or is a second separator
      assert !(IsAlnum(t[0]) || IsSeparator(t[0])) || |t| == 1 ||
             !(IsAlnum(t[1]) || IsSeparator(t[1])) || (IsSeparator(t[0]) && IsSeparator(t[1]));
    }
  }

  /** The word scan accepts exactly the alphanumeric runs joined by single
      separators. */
  lemma IsWordIff(w: string)
    ensures IsWord(w) <==> WordShape(w)
  {
    if |w| > 0 {
      WordTailMeaning(w[1..]);
      assert forall i :: 0 <= i < |w| - 1 ==> w[1..][i] == w[i + 1];
      if |w| > 1 {
        assert w[|w| - 1] == w[1..][|w| - 2];
      }
      assert AllWordChars(w) <==> (IsAlnum(w[0]) || IsSeparator(w[0])) && AllWordChars(w[1..]) by {
        if (IsAlnum(w[0]) || IsSeparator(w[0])) && AllWordChars(w[1..]) {
          forall i | 0 <= i < |w| ensures IsAlnum(w[i]) || IsSeparator(w[i]) {
            if i > 0 { assert w[i] == w[1..][i - 1]; }
          }
        }
      }
      if IsAlnum(w[0]) {
        assert NoDoubleSeparator(w) <==> NoDoubleSeparator(w[1..]) by {
          if NoDoubleSeparator(w[1..]) {
            forall i | 0 <= i < |w| - 1 ensures !(IsSeparator(w[i]) && IsSeparator(w[i + 1])) {
              if i > 0 { assert w[i] == w[1..][i - 1] && w[i + 1] == w[1..][i]; }
            }
          }
        }
      }
    }
  }

  /** A word holds no `@`. */
  lemma WordHasNoAt(w: string)
    requires IsWord(w)
    ensures forall i :: 0 <= i < |w| ==> w[i] != '@'
  {
    IsWordIff(w);
  }

  /** A word before an `@` and a domain after it split the address there and
      at the dot before its two or three final letters. */
  lemma DomainSplits(s: string, at: nat)
    requires at < |s| && s[at] == '@'
    ensures IsWord(s[..at]) && IsDomain(s[at + 1..]) ==> exists dot :: EmailParts(s, at, dot)
  {
    var d := s[at + 1..];
    if IsWord(s[..at]) && IsDomain(d) {
      var n := if DomainEndsIn(d, 2) then 2 else 3;
      var dot := at + 1 + |d| - n - 1;
      assert s[at + 1..dot] == d[..|d| - n - 1];
      assert s[dot + 1..] == d[|d| - n..];
      assert EmailParts(s, at, dot);
    }
  }

  /** An address that splits as word `@` word `.` letters splits at its first
      `@`, and what follows that `@` is a domain. */
  lemma PartsAtFirstAt(s: string)
    ensures forall at, dot :: EmailParts(s, at, dot) ==>
              IndexOf(s, '@') == Some(at) && IsDomain(s[at + 1..])
  {
    forall at, dot | EmailParts(s, at, dot)
      ensures IndexOf(s, '@') == Some(at) && IsDomain(s[at + 1..])
    {
      WordHasNoAt(s[..at]);
      var i := IndexOf(s, '@');
      assert i.Some? by { assert s[at] == '@'; }
      assert i.value == at by {
        assert forall k :: 0 <= k < at ==> s[k] == s[..at][k];
        assert '@' !in s[..i.value];
      }
      var d := s[at + 1..];
      var n := |s| - dot - 1;
      assert d[..|d| - n - 1] == s[at + 1..dot];
      assert d[|d| - n..] == s[dot + 1..];
      assert DomainEndsIn(d, n);
    }
  }

  /** Every address the email check accepts has exactly one `@`. */
  predicate ExactlyOneAt(s: string)
  {
    exists at :: 0 <= at < |s| && s[at] == '@' &&
                 forall k :: 0 <= k < |s| && s[k] == '@' ==> k == at
  }

  /** The address ends in a dot followed by two or three letters. */
  predicate EndsInTopLevelDomain(s: string)
  {
    (|s| >= 3 && s[|s| - 3] == '.' && AllLetters(s[|s| - 2..])) ||
    (|s| >= 4 && s[|s| - 4] == '.' && AllLetters(s[|s| - 3..]))
  }

  lemma EmailPartsOneAt(s: string, at: int, dot: int)
    requires EmailParts(s, at, dot)
    ensures ExactlyOneAt(s)
  {
    var local, domain, tld := s[..at], s[at + 1..dot], s[dot + 1..];
    IsWordIff(local);
    IsWordIff(domain);
    forall k | 0 <= k < |s| && k != at ensures s[k] != '@' {
      if k < at {
        assert s[k] == local[k];
        assert IsAlnum(local[k]) || IsSeparator(local[k]);
      } else if at < k < dot {
        assert s[k] == domain[k - at - 1];
        assert IsAlnum(domain[k - at - 1]) || IsSeparator(domain[k - at - 1]);
      } else if dot < k {
        assert s[k] == tld[k - dot - 1];
        assert IsLetter(tld[k - dot - 1]);
      }
    }
  }

  lemma EmailPartsNoDoubleSeparator(s: string, at: int, dot: int)
    requires EmailParts(s, at, dot)
    ensures NoDoubleSeparator(s)
  {
    var local, domain, tld := s[..at], s[at + 1..dot], s[dot + 1..];
    IsWordIff(local);
    IsWordIff(domain);
    forall k | 0 <= k < |s| - 1 ensures !(IsSeparator(s[k]) && IsSeparator(s[k + 1])) {
      if k + 1 < at {
        assert s[k] == local[k] && s[k + 1] == local[k + 1];
        assert !(IsSeparator(local[k]) && IsSeparator(local[k + 1]));
      } else if k + 1 == at {
        assert s[k] == local[|local| - 1];
      } else if k == at {
      } else if k + 1 < dot {
        assert s[k] == domain[k - at - 1] && s[k + 1] == domain[k - at];
        assert !(IsSeparator(domain[k - at - 1]) && IsSeparator(domain[k - at]));
      } else if k + 1 == dot {
        assert s[k] == domain[|domain| - 1];
      } else {
        assert s[k + 1] == tld[k - dot];
        assert IsLetter(tld[k - dot]);
      }
    }
  }

  lemma EmailPartsEnds(s: string, at: int, dot: int)
    requires EmailParts(s, at, dot)
    ensures |s| > 0 && IsAlnum(s[0])
    ensures EndsInTopLevelDomain(s)
  {
    IsWordIff(s[..at]);
    assert s[0] == s[..at][0];
    if |s| - dot - 1 == 2 {
      assert s[|s| - 2..] == s[dot + 1..];
    } else {
      assert s[|s| - 3..] == s[dot + 1..];
    }
  }

  /** What acceptance by the email check guarantees: one `@`, an alphanumeric
      first character, never two separators in a row, and a final dot with
      two or three letters after it. */
  lemma EmailOkShape(s: string)
    requires EmailOk(s)
    ensures ExactlyOneAt(s)
    ensures |s| > 0 && IsAlnum(s[0])
    ensures NoDoubleSeparator(s)
    ensures EndsInTopLevelDomain(s)
  {
    var at, dot :| EmailParts(s, at, dot);
    EmailPartsOneAt(s, at, dot);
    EmailPartsNoDoubleSeparator(s, at, dot);
    EmailPartsEnds(s, at, dot);
  }

  /** Conversely, the email check accepts every address built as word `@`
      word `.` two or three letters. */
  lemma EmailOkAccepts(local: string, domain: string, tld: string)
    requires WordShape(local) && WordShape(domain)
    requires 2 <= |tld| <= 3 && AllLetters(tld)
    ensures EmailOk(local + "@" + domain + "." + tld)
  {
    var s := local + "@" + domain + "." + tld;
    IsWordIff(local);
    IsWordIff(domain);
    var at, dot := |local|, |local| + 1 + |domain|;
    assert s[..at] == local;
    assert s[at + 1..dot] == domain;
    assert s[dot + 1..] == tld;
    assert EmailParts(s, at, dot);
  }
}
