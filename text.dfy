/** String helpers used by the service and by both client forms: the two
    whitespace tests (.NET's char.IsWhiteSpace behind
    string.IsNullOrWhiteSpace, and the set JavaScript's
    String.prototype.trim strips), trimming, and exact substring containment
    (String.Contains / SQL LIKE under a case-sensitive collation). */
module Text {
  import opened Common

  /** The characters both sides treat as blank: the ASCII controls TAB..CR,
      SPACE, NO-BREAK SPACE, OGHAM SPACE MARK, the EN QUAD..HAIR SPACE block,
      the line and paragraph separators, NARROW NO-BREAK SPACE, MEDIUM
      MATHEMATICAL SPACE and IDEOGRAPHIC SPACE. */
  predicate IsSharedWhiteSpace(c: char)
  {
    ('\t' <= c <= '\r') || c == ' ' || c == '\U{A0}' || c == '\U{1680}'
    || ('\U{2000}' <= c <= '\U{200A}') || c == '\U{2028}' || c == '\U{2029}'
    || c == '\U{202F}' || c == '\U{205F}' || c == '\U{3000}'
  }

  /** .NET's char.IsWhiteSpace: the shared set and NEXT LINE (U+0085). */
  predicate IsNetWhiteSpace(c: char)
  {
    IsSharedWhiteSpace(c) || c == '\U{85}'
  }

  /** The whitespace and line terminators JavaScript's trim strips: the
      shared set and the BYTE ORDER MARK (U+FEFF). */
  predicate IsJsWhiteSpace(c: char)
  {
    IsSharedWhiteSpace(c) || c == '\U{FEFF}'
  }

  /** Every character of s is .NET whitespace (true of the empty string). */
  predicate AllNetWhite(s: string)
  {
    forall i :: 0 <= i < |s| ==> IsNetWhiteSpace(s[i])
  }

  /** Every character of s is JavaScript whitespace (true of the empty
      string). */
  predicate AllJsWhite(s: string)
  {
    forall i :: 0 <= i < |s| ==> IsJsWhiteSpace(s[i])
  }

  /** string.IsNullOrWhiteSpace: null, empty, or .NET whitespace only. */
  predicate IsNullOrWhiteSpace(s: Option<string>)
  {
    s.None? || AllNetWhite(s.value)
  }

  /** s has no whitespace at either end. */
  predicate IsTrimmed(s: string)
  {
    s == [] || (!IsJsWhiteSpace(s[0]) && !IsJsWhiteSpace(s[|s| - 1]))
  }

  /** Drops leading JavaScript whitespace. */
  function TrimStart(s: string): string
  {
    if |s| > 0 && IsJsWhiteSpace(s[0]) then TrimStart(s[1..]) else s
  }

  /** Drops trailing JavaScript whitespace. */
  function TrimEnd(s: string): string
  {
    if |s| > 0 && IsJsWhiteSpace(s[|s| - 1]) then TrimEnd(s[..|s| - 1]) else s
  }

  /** JavaScript's String.prototype.trim. */
  function Trim(s: string): string
  {
    TrimEnd(TrimStart(s))
  }

  /** TrimStart keeps the suffix of s that starts at its first
      non-whitespace character. */
  lemma {:induction false} TrimStartSpec(s: string)
    ensures var r := TrimStart(s);
            |r| <= |s| && r == s[|s| - |r|..] && AllJsWhite(s[..|s| - |r|])
            && (r == [] || !IsJsWhiteSpace(r[0]))
  {
    if |s| > 0 && IsJsWhiteSpace(s[0]) {
      TrimStartSpec(s[1..]);
      var r := TrimStart(s[1..]);
      assert s[1..][..|s| - 1 - |r|] == s[1..|s| - |r|];
      assert s[..|s| - |r|] == [s[0]] + s[1..|s| - |r|];
    } else {
      assert s[..0] == [];
    }
  }

  /** TrimEnd keeps the prefix of s that ends at its last non-whitespace
      character. */
  lemma {:induction false} TrimEndSpec(s: string)
    ensures var r := TrimEnd(s);
            |r| <= |s| && r == s[..|r|] && AllJsWhite(s[|r|..])
            && (r == [] || !IsJsWhiteSpace(r[|r| - 1]))
  {
    if |s| > 0 && IsJsWhiteSpace(s[|s| - 1]) {
      var init := s[..|s| - 1];
      TrimEndSpec(init);
      var r := TrimEnd(init);
      assert init[..|r|] == s[..|r|];
      assert s[|r|..] == init[|r|..] + [s[|s| - 1]];
    } else {
      assert s[|s|..] == [];
    }
  }

  /** Trim leaves no whitespace at either end, and leaves nothing exactly
      when s is whitespace only. */
  lemma TrimSpec(s: string)
    ensures IsTrimmed(Trim(s))
    ensures Trim(s) == [] <==> AllJsWhite(s)
  {
    var t := TrimStart(s);
    TrimStartSpec(s);
    TrimEndSpec(t);
    var r := TrimEnd(t);
    assert r != [] ==> r[0] == t[0];
  }

  /** Trimming keeps the non-blank core of s: what it removes on the left and
      on the right is whitespace only. */
  lemma TrimIsCore(s: string)
    ensures exists i :: 0 <= i <= |s| - |Trim(s)| && Cut(s, i, |Trim(s)|)
  {
    var t := TrimStart(s);
    TrimStartSpec(s);
    TrimEndSpec(t);
    var r := TrimEnd(t);
    var i := |s| - |t|;
    assert s[i..i + |r|] == t[..|r|];
    assert s[i + |r|..] == t[|r|..];
    assert Cut(s, i, |r|);
  }

  /** s splits into whitespace, then s[i..i+n], then whitespace. */
  predicate Cut(s: string, i: nat, n: nat)
  {
    i + n <= |s| && AllJsWhite(s[..i]) && AllJsWhite(s[i + n..])
    && Trim(s) == s[i..i + n]
  }

  /** A string with no whitespace at either end is left unchanged by Trim. */
  lemma {:induction false} TrimOfTrimmed(s: string)
    requires IsTrimmed(s)
    ensures Trim(s) == s
  {
    assert TrimStart(s) == s;
    assert TrimEnd(s) == s;
  }

  /** Trimming twice is trimming once. */
  lemma TrimIdempotent(s: string)
    ensures Trim(Trim(s)) == Trim(s)
  {
    TrimSpec(s);
    TrimOfTrimmed(Trim(s));
  }

  /** A string that is not blank for .NET and holds no BYTE ORDER MARK is
      not blank for JavaScript either. */
  lemma NetNonBlankIsJsNonBlank(s: string)
    requires !AllNetWhite(s) && '\U{FEFF}' !in s
    ensures !AllJsWhite(s)
  {
    var i :| 0 <= i < |s| && !IsNetWhiteSpace(s[i]);
    assert s[i] in s;
  }

  /** f occurs in s starting at index i. */
  predicate OccursAt(s: string, f: string, i: nat)
  {
    i + |f| <= |s| && s[i..i + |f|] == f
  }

  /** String.Contains with ordinal comparison: is f a contiguous run of s? */
  function Contains(s: string, f: string): bool
  {
    if OccursAt(s, f, 0) then true
    else if |s| == 0 then false
    else Contains(s[1..], f)
  }

  /** Contains holds exactly when f occurs at some index of s. */
  lemma {:induction false} ContainsSpec(s: string, f: string)
    ensures Contains(s, f) <==> exists i: nat :: OccursAt(s, f, i)
  {
    if !OccursAt(s, f, 0) && |s| != 0 {
      ContainsSpec(s[1..], f);
      if Contains(s[1..], f) {
        var j: nat :| OccursAt(s[1..], f, j);
        assert s[j + 1..j + 1 + |f|] == s[1..][j..j + |f|];
        assert OccursAt(s, f, j + 1);
      }
      if exists i: nat :: OccursAt(s, f, i) {
        var j: nat :| OccursAt(s, f, j);
        assert j != 0;
        assert s[1..][j - 1..j - 1 + |f|] == s[j..j + |f|];
        assert OccursAt(s[1..], f, j - 1);
      }
    }
  }

  /** A fragment found in s is still found once text is added on either side. */
  lemma ContainsInConcat(s: string, t: string, f: string)
    ensures Contains(s, f) ==> Contains(s + t, f) && Contains(t + s, f)
  {
    ContainsSpec(s, f);
    ContainsSpec(s + t, f);
    ContainsSpec(t + s, f);
    if Contains(s, f) {
      var i: nat :| OccursAt(s, f, i);
      assert (s + t)[i..i + |f|] == s[i..i + |f|];
      assert OccursAt(s + t, f, i);
      assert (t + s)[|t| + i..|t| + i + |f|] == s[i..i + |f|];
      assert OccursAt(t + s, f, |t| + i);
    }
  }
}
