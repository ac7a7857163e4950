/** Character and string helpers that the chat widget relies on through the
    JavaScript built-ins: case-insensitive matching of the `/i` regex flag,
    substring search (what a regex made only of literal alternatives does),
    and `String.prototype.trim`. */
module Text {

  /** ASCII lower-casing of one character; every other character is kept.
      Under the `/i` flag without `u`, a non-ASCII character never folds onto
      an ASCII one, so for keywords made of ASCII letters this is exact. */
  function LowerChar(c: char): char
  {
    if 'A' <= c <= 'Z' then (c as int - 'A' as int + 'a' as int) as char else c
  }

  /** ASCII upper-casing of one character, the other direction of a case change. */
  function UpperChar(c: char): char
  {
    if 'a' <= c <= 'z' then (c as int - 'a' as int + 'A' as int) as char else c
  }

  /** The string lower-cased character by character. */
  function Lower(s: string): (r: string)
    ensures |r| == |s|
    ensures forall i :: 0 <= i < |s| ==> r[i] == LowerChar(s[i])
  {
    if s == [] then [] else [LowerChar(s[0])] + Lower(s[1..])
  }

  /** The string upper-cased character by character. */
  function Upper(s: string): (r: string)
    ensures |r| == |s|
    ensures forall i :: 0 <= i < |s| ==> r[i] == UpperChar(s[i])
  {
    if s == [] then [] else [UpperChar(s[0])] + Upper(s[1..])
  }

  /** Two strings that differ at most in the case of ASCII letters. */
  predicate SameIgnoringCase(a: string, b: string)
  {
    |a| == |b| && forall i :: 0 <= i < |a| ==> LowerChar(a[i]) == LowerChar(b[i])
  }

  /** Upper-casing or lower-casing a string only changes the case of its letters. */
  lemma CaseChangesAreSameIgnoringCase(s: string)
    ensures SameIgnoringCase(s, Upper(s)) && SameIgnoringCase(s, Lower(s))
  {
  }

  /** `k` occurs in `s` starting at position `i` when letters are compared
      without regard to case, the way a regex with the `i` flag compares a
      literal with the text. */
  predicate OccursAt(s: string, k: string, i: int)
  {
    0 <= i && i + |k| <= |s| &&
    forall m :: 0 <= m < |k| ==> LowerChar(s[i + m]) == LowerChar(k[m])
  }

  /** Case-insensitive substring search, scanning start positions from the
      left, which is what `/k/i.test(s)` answers for a literal `k`. */
  function ContainsIgnoringCase(s: string, k: string): (r: bool)
    ensures r ==> |k| <= |s|
    ensures OccursAt(s, k, 0) ==> r
    decreases |s|
  {
    if |k| > |s| then false
    else if OccursAt(s, k, 0) then true
    else ContainsIgnoringCase(s[1..], k)
  }

  /** The search is true exactly when `k` occurs somewhere in `s`. */
  lemma {:induction false} ContainsIffOccurs(s: string, k: string)
    ensures ContainsIgnoringCase(s, k) <==> exists i :: OccursAt(s, k, i)
    decreases |s|
  {
    if |k| <= |s| && !OccursAt(s, k, 0) {
      ContainsIffOccurs(s[1..], k);
      forall i ensures OccursAt(s[1..], k, i) <==> OccursAt(s, k, i + 1) {
        if 0 <= i && i + |k| <= |s| - 1 {
          assert forall p :: i <= p < i + |k| ==> s[1..][p] == s[p + 1];
        }
      }
      assert forall i :: OccursAt(s, k, i) ==> i == 0 || OccursAt(s[1..], k, i - 1);
    }
  }

  /** An exact occurrence is also an occurrence up to case. */
  lemma ExactOccurrence(s: string, k: string, i: nat)
    requires i + |k| <= |s| && s[i..i + |k|] == k
    ensures ContainsIgnoringCase(s, k)
  {
    forall m | 0 <= m < |k| ensures s[i + m] == k[m] {
      assert s[i..i + |k|][m] == s[i + m];
    }
    assert OccursAt(s, k, i);
    ContainsIffOccurs(s, k);
  }

  /** Text none of whose characters folds to the same letter as character
      `m` of `k` does not contain `k`, in any case. */
  lemma MissingCharNotContained(s: string, k: string, m: nat)
    requires m < |k|
    requires forall i :: 0 <= i < |s| ==> LowerChar(s[i]) != LowerChar(k[m])
    ensures !ContainsIgnoringCase(s, k)
  {
    forall i ensures !OccursAt(s, k, i) {
      if 0 <= i && i + |k| <= |s| {
        assert LowerChar(s[i + m]) != LowerChar(k[m]);
      }
    }
    ContainsIffOccurs(s, k);
  }

  /** Case-insensitive search gives the same answer on texts that differ
      only in the case of their letters. */
  lemma ContainsIgnoresCase(a: string, b: string, k: string)
    requires SameIgnoringCase(a, b)
    ensures ContainsIgnoringCase(a, k) == ContainsIgnoringCase(b, k)
  {
    forall i ensures OccursAt(a, k, i) <==> OccursAt(b, k, i) {
      if 0 <= i && i + |k| <= |a| {
        assert forall p :: i <= p < i + |k| ==> LowerChar(a[p]) == LowerChar(b[p]);
      }
    }
    ContainsIffOccurs(a, k);
    ContainsIffOccurs(b, k);
  }

  /** The characters `String.prototype.trim` removes: ECMAScript WhiteSpace
      (tab, vertical tab, form feed, the byte order mark and the Unicode
      space separators of category Zs) and LineTerminator (line feed,
      carriage return, line and paragraph separators). */
  predicate IsSpace(c: char)
    ensures IsSpace(c) ==> c as int < 0x1_0000
  {
    var n := c as int;
    n == 0x09 || n == 0x0A || n == 0x0B || n == 0x0C || n == 0x0D || n == 0x20 ||
    n == 0xA0 || n == 0x1680 || (0x2000 <= n <= 0x200A) || n == 0x2028 || n == 0x2029 ||
    n == 0x202F || n == 0x205F || n == 0x3000 || n == 0xFEFF
  }

  /** Every character of `s` is white space (vacuously so for ""). */
  predicate IsBlank(s: string)
  {
    forall i :: 0 <= i < |s| ==> IsSpace(s[i])
  }

  /** `s` without its leading white space. */
  function TrimStart(s: string): (r: string)
    ensures |r| <= |s|
    ensures IsBlank(s) ==> r == []
  {
    if s != [] && IsSpace(s[0]) then TrimStart(s[1..]) else s
  }

  /** `s` without its trailing white space. */
  function TrimEnd(s: string): (r: string)
    ensures |r| <= |s|
    ensures IsBlank(s) ==> r == []
  {
    if s != [] && IsSpace(s[|s| - 1]) then TrimEnd(s[..|s| - 1]) else s
  }

  /** `String.prototype.trim`: the slice of `s` between its leading and its
      trailing white space. */
  function Trim(s: string): (r: string)
    ensures |r| <= |s|
    ensures IsBlank(s) ==> r == []
  {
    TrimEnd(TrimStart(s))
  }

  /** TrimStart keeps a suffix of `s`, drops only white space, and what is
      left does not start with white space. */
  lemma {:induction false} TrimStartSpec(s: string)
    ensures |TrimStart(s)| <= |s| && TrimStart(s) == s[|s| - |TrimStart(s)|..]
    ensures IsBlank(s[..|s| - |TrimStart(s)|])
    ensures TrimStart(s) == [] || !IsSpace(TrimStart(s)[0])
  {
    if s != [] && IsSpace(s[0]) {
      TrimStartSpec(s[1..]);
    }
  }

  /** TrimEnd keeps a prefix of `s`, drops only white space, and what is left
      does not end with white space. */
  lemma {:induction false} TrimEndSpec(s: string)
    ensures |TrimEnd(s)| <= |s| && TrimEnd(s) == s[..|TrimEnd(s)|]
    ensures IsBlank(s[|TrimEnd(s)|..])
    ensures TrimEnd(s) == [] || !IsSpace(TrimEnd(s)[|TrimEnd(s)| - 1])
  {
    if s != [] && IsSpace(s[|s| - 1]) {
      var prefix := s[..|s| - 1];
      TrimEndSpec(prefix);
      var r := TrimEnd(s);
      forall i | 0 <= i < |s| - |r| ensures IsSpace(s[|r|..][i]) {
        if i < |prefix| - |r| {
          assert s[|r|..][i] == prefix[|r|..][i];
        }
      }
    }
  }

  /** What trim promises: the result is a contiguous slice `s[lo..lo + |r|]`,
      everything cut away on either side is white space, and the result
      neither starts nor ends with white space. */
  lemma TrimIsInnerSlice(s: string) returns (lo: nat)
    ensures lo + |Trim(s)| <= |s| && Trim(s) == s[lo..lo + |Trim(s)|]
    ensures IsBlank(s[..lo]) && IsBlank(s[lo + |Trim(s)|..])
    ensures Trim(s) == [] || (!IsSpace(Trim(s)[0]) && !IsSpace(Trim(s)[|Trim(s)| - 1]))
  {
    TrimStartSpec(s);
    var t := TrimStart(s);
    TrimEndSpec(t);
    var r := TrimEnd(t);
    lo := |s| - |t|;
    assert s[lo..lo + |r|] == t[..|r|];
    assert s[lo + |r|..] == t[|r|..];
    if r != [] {
      assert r[0] == t[0];
    }
  }

  /** Trim gives "" exactly for blank strings, which is what the submit
      handler's `if (!trimmed) return` tests. */
  lemma TrimEmptyIffBlank(s: string)
    ensures Trim(s) == [] <==> IsBlank(s)
  {
    TrimStartSpec(s);
    var t := TrimStart(s);
    TrimEndSpec(t);
    if Trim(s) == [] {
      assert IsBlank(t[0..]);
      assert t == [];
      assert s[..|s|] == s;
    }
  }

  /** Trimming twice gives what trimming once does. */
  lemma TrimIdempotent(s: string)
    ensures Trim(Trim(s)) == Trim(s)
  {
    var r := Trim(s);
    if r != [] {
      assert !IsSpace(r[0]) && !IsSpace(r[|r| - 1]) by {
        var _ := TrimIsInnerSlice(s);
      }
      assert TrimStart(r) == r;
      assert TrimEnd(r) == r;
    }
  }
}
