/**
  The e-mail shape test of the sign-in form:

    /^[^\s@]+@[^\s@]+\.[^\s@]{2,}$/i

  `Matches` is the pattern's meaning written as a split of the input,
  `WellFormed` describes the same set of strings field by field, and `Test`
  decides it in one left-to-right pass over the code units.

  The `i` flag changes nothing: the pattern has no letters, and no code unit
  case-folds to `@` or to a white-space code unit.
 */
module EmailPattern {
  import opened Utf16

  const At: CodeUnit := 0x40   // '@'
  const Dot: CodeUnit := 0x2E  // '.'

  /**
    The class `\s` of ECMAScript regular expressions: the WhiteSpace code
    points (tab, vertical tab, form feed, space, no-break space, zero width
    no-break space and the Unicode space separators) and the LineTerminator
    code points (line feed, carriage return, line and paragraph separator).
    All lie in the Basic Multilingual Plane, so one code unit decides.
   */
  predicate IsSpace(u: CodeUnit)
  {
    || u == 0x09 || u == 0x0A || u == 0x0B || u == 0x0C || u == 0x0D
    || u == 0x20 || u == 0xA0 || u == 0x1680
    || (0x2000 <= u <= 0x200A)
    || u == 0x2028 || u == 0x2029 || u == 0x202F || u == 0x205F
    || u == 0x3000 || u == 0xFEFF
  }

  /** A code unit that `[^\s@]` accepts. */
  predicate InClass(u: CodeUnit) { u != At && !IsSpace(u) }

  /** `[^\s@]*` accepts `t`. */
  predicate AllInClass(t: JsString) { forall k | 0 <= k < |t| :: InClass(t[k]) }

  /**
    The pattern accepts `s`: `s == a + "@" + b + "." + c` where `a` and `b`
    are non-empty, `|c| >= 2` and `a`, `b`, `c` are made of `[^\s@]`.
    Here `i` is the index of the `@` and `j` that of the `.`; `b` and `c`
    may themselves contain dots.
   */
  predicate Matches(s: JsString)
  {
    exists i, j | 0 < i < |s| && i + 1 < j <= |s| - 3 ::
      && s[i] == At && s[j] == Dot
      && AllInClass(s[..i]) && AllInClass(s[i + 1..j]) && AllInClass(s[j + 1..])
  }

  /** A `.` in the domain `s[i + 1..]`, not its first unit, with at least two units after it. */
  predicate DomainHasDot(s: JsString, i: nat)
  {
    exists j | i + 1 < j <= |s| - 3 :: s[j] == Dot
  }

  /**
    The accepted shape field by field: no white space anywhere, exactly one
    `@`, a non-empty local part before it, and a dot in the domain after it
    at domain index 1 or later, followed by at least two code units.
   */
  predicate WellFormed(s: JsString)
  {
    && (forall k | 0 <= k < |s| :: !IsSpace(s[k]))
    && exists i | 0 < i < |s| ::
         && s[i] == At
         && (forall k | 0 <= k < |s| && s[k] == At :: k == i)
         && DomainHasDot(s, i)
  }

  lemma MatchesImpliesWellFormed(s: JsString)
    requires Matches(s)
    ensures WellFormed(s)
  {
    var i, j :| 0 < i < |s| && i + 1 < j <= |s| - 3
      && s[i] == At && s[j] == Dot
      && AllInClass(s[..i]) && AllInClass(s[i + 1..j]) && AllInClass(s[j + 1..]);
    forall k | 0 <= k < |s| && k != i
      ensures InClass(s[k])
    {
      if k < i {
        assert InClass(s[..i][k]);
      } else if i < k < j {
        assert InClass(s[i + 1..j][k - i - 1]);
      } else if j < k {
        assert InClass(s[j + 1..][k - j - 1]);
      }
    }
    assert DomainHasDot(s, i) by { assert s[j] == Dot; }
  }

  /** Without any `@` the shape is never accepted. */
  lemma NoAtNotWellFormed(s: JsString)
    requires forall k | 0 <= k < |s| :: s[k] != At
    ensures !WellFormed(s)
  {
  }

  lemma WellFormedImpliesMatches(s: JsString)
    requires WellFormed(s)
    ensures Matches(s)
  {
    var i :| 0 < i < |s| && s[i] == At
      && (forall k | 0 <= k < |s| && s[k] == At :: k == i)
      && DomainHasDot(s, i);
    var j :| i + 1 < j <= |s| - 3 && s[j] == Dot;
    assert forall k | 0 <= k < |s| && k != i :: InClass(s[k]);
  }

  /** The split form of the pattern and the field-by-field description agree. */
  lemma MatchesIffWellFormed(s: JsString)
    ensures Matches(s) <==> WellFormed(s)
  {
    if Matches(s) { MatchesImpliesWellFormed(s); }
    if WellFormed(s) { WellFormedImpliesMatches(s); }
  }

  /**
    `regex.test(s)` as a single scan: remember where the `@` is and where the
    first eligible dot after it is, and reject at the first white space or
    at a second `@`.
   */
  method Test(s: JsString) returns (ok: bool)
    ensures ok <==> WellFormed(s)
    ensures ok <==> Matches(s)
  {
    MatchesIffWellFormed(s);
    var at := -1;   // index of the `@` seen so far, or -1
    var dot := -1;  // index of the first dot at least two past the `@`, or -1
    var k := 0;
    while k < |s|
      invariant 0 <= k <= |s|
      invariant forall m | 0 <= m < k :: !IsSpace(s[m])
      invariant at == -1 ==> forall m | 0 <= m < k :: s[m] != At
      invariant at != -1 ==> 0 <= at < k && s[at] == At
      invariant at != -1 ==> forall m | 0 <= m < k && s[m] == At :: m == at
      invariant dot != -1 ==> at != -1 && at + 1 < dot < k && s[dot] == Dot
      invariant at != -1 ==> forall m | at + 1 < m < k && (dot == -1 || m < dot) :: s[m] != Dot
    {
      var u := s[k];
      if IsSpace(u) {
        return false;
      }
      if u == At {
        if at != -1 {
          return false;
        }
        at := k;
      } else if u == Dot && at != -1 && dot == -1 && at + 1 < k {
        dot := k;
      }
      k := k + 1;
    }
    ok := at >= 1 && dot != -1 && dot <= |s| - 3;
    if ok {
      assert DomainHasDot(s, at);
    }
  }
}
