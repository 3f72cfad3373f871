/**
 * `isValidEmail`: the test `/^[^\s@]+@[^\s@]+\.[^\s@]+$/` applied to the
 * email field of the contact form.
 */
module Email {
  import opened Optional

  /**
   * A character `\s` matches in an ECMAScript regular expression: the
   * WhiteSpace and LineTerminator code points.
   */
  predicate IsJsSpace(c: char)
  {
    var n := c as int;
    n == 0x09 || n == 0x0A || n == 0x0B || n == 0x0C || n == 0x0D || n == 0x20 ||
    n == 0xA0 || n == 0x1680 || (0x2000 <= n <= 0x200A) || n == 0x2028 || n == 0x2029 ||
    n == 0x202F || n == 0x205F || n == 0x3000 || n == 0xFEFF
  }

  /** A character matched by the class `[^\s@]`. */
  predicate Plain(c: char)
  {
    !IsJsSpace(c) && c != '@'
  }

  /** A string matched by `[^\s@]+`. */
  predicate PlainRun(t: string)
  {
    |t| > 0 && forall k :: 0 <= k < |t| ==> Plain(t[k])
  }

  /**
   * The regular expression, read as a decomposition: a plain run, `@`, a plain
   * run, `.`, a plain run, with the `@` at index `i` and the `.` at index `j`.
   */
  ghost predicate MatchesPattern(s: string)
  {
    exists i, j :: 0 <= i < j < |s| && s[i] == '@' && s[j] == '.' &&
      PlainRun(s[..i]) && PlainRun(s[i + 1..j]) && PlainRun(s[j + 1..])
  }

  /** The index of the first `@`, if there is one. */
  function FirstAt(s: string): (r: Option<nat>)
    ensures r.None? ==> forall k :: 0 <= k < |s| ==> s[k] != '@'
    ensures r.Some? ==> r.value < |s| && s[r.value] == '@' && forall k :: 0 <= k < r.value ==> s[k] != '@'
  {
    if |s| == 0 then None
    else if s[0] == '@' then Some(0)
    else match FirstAt(s[1..])
      case None => None
      case Some(i) => Some(i + 1)
  }

  /**
   * The test as a scan: no whitespace, exactly one `@` with something before
   * it, and after it a `.` that has at least one character on either side.
   */
  function IsValidEmail(s: string): (ok: bool)
    ensures ok <==> MatchesPattern(s)
  {
    var noSpace := forall k :: 0 <= k < |s| ==> !IsJsSpace(s[k]);
    match FirstAt(s)
    case None =>
      assert !MatchesPattern(s) by { NoAtNoMatch(s); }
      false
    case Some(i) =>
      var ok := noSpace && i > 0 &&
        (forall k :: i < k < |s| ==> s[k] != '@') &&
        (exists j :: i + 1 < j < |s| - 1 && s[j] == '.');
      assert ok <==> MatchesPattern(s) by { ScanMatchesPattern(s, i); }
      ok
  }

  lemma NoAtNoMatch(s: string)
    requires forall k :: 0 <= k < |s| ==> s[k] != '@'
    ensures !MatchesPattern(s)
  {
  }

  lemma ScanMatchesPattern(s: string, i: nat)
    requires i < |s| && s[i] == '@' && forall k :: 0 <= k < i ==> s[k] != '@'
    ensures MatchesPattern(s) <==>
      (forall k :: 0 <= k < |s| ==> !IsJsSpace(s[k])) && i > 0 &&
      (forall k :: i < k < |s| ==> s[k] != '@') &&
      (exists j :: i + 1 < j < |s| - 1 && s[j] == '.')
  {
  }

  /** An address the test accepts. */
  lemma AcceptsShortAddress()
    ensures IsValidEmail("a@b.co")
  {
    var s := "a@b.co";
    assert FirstAt(s[1..]) == Some(0);
    assert FirstAt(s) == Some(1);
    assert forall k :: 0 <= k < |s| ==> !IsJsSpace(s[k]);
    assert s[3] == '.';
  }

  /** The domain may hold several dots, and the local part dots of its own. */
  lemma AcceptsDottedAddress()
    ensures IsValidEmail("x.y@m.e.io")
  {
    var s := "x.y@m.e.io";
    assert FirstAt(s[3..]) == Some(0);
    assert FirstAt(s[2..]) == Some(1);
    assert FirstAt(s[1..]) == Some(2);
    assert FirstAt(s) == Some(3);
    assert forall k :: 0 <= k < |s| ==> !IsJsSpace(s[k]);
    assert s[5] == '.';
  }

  /** Addresses the test rejects: a missing part, a second `@`, a space. */
  lemma RejectsExamples()
    ensures !IsValidEmail("a@b")
    ensures !IsValidEmail("@b.co")
    ensures !IsValidEmail("a@.co")
    ensures !IsValidEmail("a@b.")
    ensures !IsValidEmail("a@b@c.d")
    ensures !IsValidEmail("a b@c.d")
  {
    assert "a@b@c.d"[3] == '@';
    assert IsJsSpace("a b@c.d"[1]);
  }
}
