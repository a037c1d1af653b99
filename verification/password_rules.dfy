/** The sign-up password-strength check: five regular-expression rules, all
    of which must match somewhere in the password. Each character stands for
    one UTF-16 code unit, which is what the rules' regular expressions see. */
module PasswordRules {

  const MinLength: nat := 8

  /** The characters of the special-character class, escapes resolved. */
  const SpecialChars: string := "!@#$%^&*()_+-=[]{};':\"\\|,.<>/?"

  datatype CharClass = Upper | Lower | Digit | Special

  /** Each rule is one regular expression: "8 or more of any character
      except a line terminator", or "one character of a class". */
  datatype Rule = Length | Contains(cls: CharClass)

  /** The rule table, in declaration order. */
  const Rules: seq<Rule> := [Length, Contains(Upper), Contains(Lower), Contains(Digit), Contains(Special)]

  /** The characters that `.` does not match. */
  predicate IsLineTerminator(c: char) {
    c == '\n' || c == '\r' || c == '\U{2028}' || c == '\U{2029}'
  }

  predicate InClass(c: char, cls: CharClass) {
    match cls
    case Upper => 'A' <= c <= 'Z'
    case Lower => 'a' <= c <= 'z'
    case Digit => '0' <= c <= '9'
    case Special => c in SpecialChars
  }

  /** The MinLength characters starting at i exist and none ends a line. */
  ghost predicate CleanWindow(p: string, i: nat) {
    i + MinLength <= |p| && forall k :: i <= k < i + MinLength ==> !IsLineTerminator(p[k])
  }

  /** Some clean window lies entirely inside the first n characters. */
  ghost predicate RunWithin(p: string, n: nat) {
    exists i: nat :: i + MinLength <= n && CleanWindow(p, i)
  }

  ghost predicate HasMember(p: string, cls: CharClass) {
    exists i :: 0 <= i < |p| && InClass(p[i], cls)
  }

  /** The strings the rule's regular expression finds a match in. */
  ghost predicate Accepts(r: Rule, p: string) {
    match r
    case Length => RunWithin(p, |p|)
    case Contains(cls) => HasMember(p, cls)
  }

  /** `/.{8,}/.test(p)`: a left-to-right scan counting the current run of
      non-terminator characters. */
  method TestLength(p: string) returns (b: bool)
    ensures b <==> Accepts(Length, p)
  {
    var run := 0;
    var i := 0;
    while i < |p|
      invariant 0 <= run <= i <= |p|
      invariant run < MinLength
      invariant forall k :: i - run <= k < i ==> !IsLineTerminator(p[k])
      invariant run < i ==> IsLineTerminator(p[i - run - 1])
      invariant !RunWithin(p, i)
    {
      if IsLineTerminator(p[i]) {
        run := 0;
      } else {
        run := run + 1;
        if run == MinLength {
          assert CleanWindow(p, i + 1 - MinLength);
          return true;
        }
      }
      forall s: nat | s + MinLength <= i + 1
        ensures !CleanWindow(p, s)
      {
        if s + MinLength <= i {
        } else if run == 0 {
          assert IsLineTerminator(p[i]);
        } else {
          assert IsLineTerminator(p[i - run]);
        }
      }
      i := i + 1;
    }
    return false;
  }

  /** `/[...]/.test(p)` for a single character class. */
  method TestClass(p: string, cls: CharClass) returns (b: bool)
    ensures b <==> Accepts(Contains(cls), p)
  {
    var i := 0;
    while i < |p|
      invariant 0 <= i <= |p|
      invariant forall k :: 0 <= k < i ==> !InClass(p[k], cls)
    {
      if InClass(p[i], cls) {
        return true;
      }
      i := i + 1;
    }
    return false;
  }

  method Test(r: Rule, p: string) returns (b: bool)
    ensures b <==> Accepts(r, p)
  {
    match r
    case Length => b := TestLength(p);
    case Contains(cls) => b := TestClass(p, cls);
  }

  /** Every rule of the table accepts the password, checked in order and
      stopping at the first rule that fails. */
  method IsPasswordValid(p: string) returns (ok: bool)
    ensures ok <==> && RunWithin(p, |p|)
                    && HasMember(p, Upper)
                    && HasMember(p, Lower)
                    && HasMember(p, Digit)
                    && HasMember(p, Special)
  {
    var i := 0;
    while i < |Rules|
      invariant 0 <= i <= |Rules|
      invariant forall j :: 0 <= j < i ==> Accepts(Rules[j], p)
    {
      var b := Test(Rules[i], p);
      if !b {
        return false;
      }
      i := i + 1;
    }
    assert Accepts(Rules[0], p) && Accepts(Rules[1], p) && Accepts(Rules[2], p);
    assert Accepts(Rules[3], p) && Accepts(Rules[4], p);
    return true;
  }

  /** Without line terminators the length rule is the plain length bound. */
  lemma LengthRuleWithoutTerminators(p: string)
    requires forall k :: 0 <= k < |p| ==> !IsLineTerminator(p[k])
    ensures Accepts(Length, p) <==> |p| >= MinLength
  {
    if |p| >= MinLength {
      assert CleanWindow(p, 0);
    }
  }

  /** A line break inside the password can make the length rule fail even
      though the password has more than MinLength characters. */
  lemma TerminatorSplitsRun()
    ensures |"Abcd1!\nxyz"| > MinLength
    ensures !Accepts(Length, "Abcd1!\nxyz")
  {
    var p := "Abcd1!\nxyz";
    forall i: nat | i + MinLength <= |p|
      ensures !CleanWindow(p, i)
    {
      assert IsLineTerminator(p[6]);
    }
  }

  /** A password meeting all five rules. */
  lemma StrongSample()
    ensures forall j :: 0 <= j < |Rules| ==> Accepts(Rules[j], "Secret123!")
  {
    var p := "Secret123!";
    assert CleanWindow(p, 0);
    assert p[9] == '!' == SpecialChars[0];
    assert InClass(p[0], Upper) && InClass(p[1], Lower) && InClass(p[6], Digit) && InClass(p[9], Special);
    assert Accepts(Rules[0], p) && Accepts(Rules[1], p) && Accepts(Rules[2], p);
    assert Accepts(Rules[3], p) && Accepts(Rules[4], p);
  }
}
