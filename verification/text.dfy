/**
 Character-level helpers for the cells of a sheet, which are strings after the
 blank-filling and string conversion of the Rival sheet.

 The source uses Python's `str.strip()`, `str.isdigit()` and the `in`
 substring test. This module models them on ASCII: whitespace is the ten
 ASCII characters `str.isspace()` accepts and digits are '0'..'9'.
 */
module Text {

  /**
   ASCII whitespace as removed by `strip()`: space, \t, \n, \v, \f, \r and
   the four separators \x1c..\x1f.
   */
  predicate IsSpace(c: char) {
    c == ' ' || c == '\t' || c == '\n' || c == '\r' || c == '\U{000B}' || c == '\U{000C}'
    || '\U{001C}' <= c <= '\U{001F}'
  }

  predicate IsDigit(c: char) {
    '0' <= c <= '9'
  }

  predicate AllSpace(s: string) {
    forall i :: 0 <= i < |s| ==> IsSpace(s[i])
  }

  /** A string that `strip()` leaves alone: empty, or non-space at both ends. */
  predicate Stripped(s: string) {
    |s| == 0 || (!IsSpace(s[0]) && !IsSpace(s[|s| - 1]))
  }

  /** Every character is a digit, checked left to right. */
  predicate AllDigits(s: string)
    decreases |s|
  {
    |s| == 0 || (IsDigit(s[0]) && AllDigits(s[1..]))
  }

  /** The left-to-right check agrees with "every character is a digit". */
  lemma {:induction false} AllDigitsIff(s: string)
    ensures AllDigits(s) <==> forall i :: 0 <= i < |s| ==> IsDigit(s[i])
    decreases |s|
  {
    if |s| > 0 {
      AllDigitsIff(s[1..]);
      assert forall i :: 1 <= i < |s| ==> s[i] == s[1..][i - 1];
    }
  }

  /** `isdigit()`: non-empty and made of digits only; such a code has nothing to strip. */
  predicate IsDigits(s: string)
    ensures IsDigits(s) <==> |s| > 0 && forall i :: 0 <= i < |s| ==> IsDigit(s[i])
    ensures IsDigits(s) ==> Stripped(s)
  {
    AllDigitsIff(s);
    |s| > 0 && AllDigits(s)
  }

  /** Removes the leading whitespace. */
  function TrimStart(s: string): (r: string)
    ensures |r| <= |s|
    decreases |s|
  {
    if |s| > 0 && IsSpace(s[0]) then TrimStart(s[1..]) else s
  }

  /** Removes the trailing whitespace. */
  function TrimEnd(s: string): (r: string)
    ensures |r| <= |s|
    decreases |s|
  {
    if |s| > 0 && IsSpace(s[|s| - 1]) then TrimEnd(s[..|s| - 1]) else s
  }

  /** `strip()`: leading, then trailing whitespace removed. */
  function Trim(s: string): (r: string)
    ensures |r| <= |s|
  {
    TrimEnd(TrimStart(s))
  }

  /** TrimStart keeps a suffix, removes only whitespace, and stops at a non-space. */
  lemma {:induction false} TrimStartFacts(s: string)
    ensures var r := TrimStart(s);
      r == s[|s| - |r|..] && AllSpace(s[..|s| - |r|]) && (|r| > 0 ==> !IsSpace(r[0]))
    decreases |s|
  {
    if |s| > 0 && IsSpace(s[0]) {
      TrimStartFacts(s[1..]);
      var r := TrimStart(s);
      assert s[1..][|s| - 1 - |r|..] == s[|s| - |r|..];
      assert s[..|s| - |r|] == [s[0]] + s[1..][..|s| - 1 - |r|];
    } else {
      assert s[..0] == [];
    }
  }

  /** TrimEnd keeps a prefix, removes only whitespace, and stops at a non-space. */
  lemma {:induction false} TrimEndFacts(s: string)
    ensures var r := TrimEnd(s);
      r == s[..|r|] && AllSpace(s[|r|..]) && (|r| > 0 ==> !IsSpace(r[|r| - 1]))
    decreases |s|
  {
    if |s| > 0 && IsSpace(s[|s| - 1]) {
      var s' := s[..|s| - 1];
      TrimEndFacts(s');
      var r := TrimEnd(s);
      assert s'[..|r|] == s[..|r|];
      assert s[|r|..] == s'[|r|..] + [s[|s| - 1]];
    } else {
      assert s[|s|..] == [];
    }
  }

  /**
   Trim leaves no whitespace at either end, removes only whitespace, and
   turns an all-whitespace cell into the empty string.
   */
  lemma {:induction false} TrimFacts(s: string)
    ensures Stripped(Trim(s))
    ensures exists lo :: 0 <= lo <= |s| - |Trim(s)| && AllSpace(s[..lo])
                         && s[lo..lo + |Trim(s)|] == Trim(s) && AllSpace(s[lo + |Trim(s)|..])
    ensures AllSpace(s) ==> Trim(s) == []
  {
    var a := TrimStart(s);
    var r := TrimEnd(a);
    TrimStartFacts(s);
    TrimEndFacts(a);
    var lo := |s| - |a|;
    assert r == s[lo..lo + |r|];
    assert s[lo + |r|..] == a[|r|..];
    if |r| > 0 {
      assert r[0] == a[0];
    }
  }

  /** Leading whitespace in front of a non-space is removed exactly. */
  lemma {:induction false} TrimStartAllSpacePrefix(pre: string, t: string)
    requires AllSpace(pre)
    requires |t| == 0 || !IsSpace(t[0])
    ensures TrimStart(pre + t) == t
    decreases |pre|
  {
    if |pre| > 0 {
      assert (pre + t)[1..] == pre[1..] + t;
      TrimStartAllSpacePrefix(pre[1..], t);
    } else {
      assert pre + t == t;
    }
  }

  /** Trailing whitespace after a non-space is removed exactly. */
  lemma {:induction false} TrimEndAllSpaceSuffix(t: string, post: string)
    requires AllSpace(post)
    requires |t| == 0 || !IsSpace(t[|t| - 1])
    ensures TrimEnd(t + post) == t
    decreases |post|
  {
    if |post| > 0 {
      assert (t + post)[..|t + post| - 1] == t + post[..|post| - 1];
      TrimEndAllSpaceSuffix(t, post[..|post| - 1]);
    } else {
      assert t + post == t;
    }
  }

  /**
   Trim is exactly "drop the whitespace padding": any stripped text
   surrounded by whitespace trims to that text. With TrimFacts this pins
   the function down completely.
   */
  lemma {:induction false} TrimUnpads(pre: string, t: string, post: string)
    requires AllSpace(pre) && AllSpace(post)
    requires Stripped(t) && |t| > 0
    ensures Trim(pre + t + post) == t
  {
    assert pre + t + post == pre + (t + post);
    TrimStartAllSpacePrefix(pre, t + post);
    TrimEndAllSpaceSuffix(t, post);
  }

  /** Stripping twice is stripping once. */
  lemma {:induction false} TrimIdempotent(s: string)
    ensures Trim(Trim(s)) == Trim(s)
  {
    TrimFacts(s);
    var t := Trim(s);
    assert TrimStart(t) == t;
    assert TrimEnd(t) == t;
  }

  /** `sub` occurs in `s` starting at index `i`. */
  predicate OccursAt(s: string, sub: string, i: int) {
    0 <= i && i + |sub| <= |s| && s[i..i + |sub|] == sub
  }

  /** Python's `sub in s`, written as a left-to-right search. */
  predicate Contains(s: string, sub: string)
    ensures Contains(s, sub) ==> |sub| <= |s|
    ensures |sub| == 0 ==> Contains(s, sub)
    decreases |s|
  {
    (|sub| <= |s| && s[..|sub|] == sub) || (|s| > 0 && Contains(s[1..], sub))
  }

  /** The search agrees with the positional definition of a substring. */
  lemma {:induction false} ContainsIff(s: string, sub: string)
    ensures Contains(s, sub) <==> exists i :: OccursAt(s, sub, i)
    decreases |s|
  {
    if |s| > 0 {
      ContainsIff(s[1..], sub);
      if |sub| <= |s| && s[..|sub|] == sub {
        assert s[0..|sub|] == s[..|sub|];
        assert OccursAt(s, sub, 0);
      }
      if Contains(s[1..], sub) {
        var i :| OccursAt(s[1..], sub, i);
        assert s[i + 1..i + 1 + |sub|] == s[1..][i..i + |sub|];
        assert OccursAt(s, sub, i + 1);
      }
      if exists i :: OccursAt(s, sub, i) {
        var i :| OccursAt(s, sub, i);
        if i > 0 {
          assert s[1..][i - 1..i - 1 + |sub|] == s[i..i + |sub|];
          assert OccursAt(s[1..], sub, i - 1);
          assert Contains(s[1..], sub);
        } else {
          assert s[..|sub|] == s[0..|sub|];
        }
        assert Contains(s, sub);
      }
    } else {
      if Contains(s, sub) {
        assert OccursAt(s, sub, 0);
      }
      if exists i :: OccursAt(s, sub, i) {
        var i :| OccursAt(s, sub, i);
        assert |sub| == 0 && i == 0;
        assert s[..|sub|] == sub;
      }
    }
  }

  /** A cell that trims to `t` mentions `t`. */
  lemma {:induction false} TrimmedContains(s: string, t: string)
    requires Trim(s) == t
    ensures Contains(s, t)
  {
    var a := TrimStart(s);
    TrimStartFacts(s);
    TrimEndFacts(a);
    var lo := |s| - |a|;
    assert s[lo..lo + |t|] == a[..|t|] == t;
    assert OccursAt(s, t, lo);
    ContainsIff(s, t);
  }
}
