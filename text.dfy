/**
 * String operations the app uses from JavaScript: `String.prototype.trim`,
 * `toLowerCase` (modelled by a per-character mapping the caller supplies) and `includes`.
 */
module Text {

  /** The characters `trim` removes: ECMAScript WhiteSpace and LineTerminator. */
  predicate IsWhiteSpace(c: char) {
    var n := c as int;
    n == 0x09 || n == 0x0A || n == 0x0B || n == 0x0C || n == 0x0D || n == 0x20
    || n == 0xA0 || n == 0x1680 || (0x2000 <= n <= 0x200A) || n == 0x2028
    || n == 0x2029 || n == 0x202F || n == 0x205F || n == 0x3000 || n == 0xFEFF
  }

  predicate AllWhiteSpace(s: string) {
    forall i :: 0 <= i < |s| ==> IsWhiteSpace(s[i])
  }

  /** Drops the leading white space of `s`. */
  function TrimStart(s: string): (r: string)
    ensures |r| <= |s| && r == s[|s| - |r|..]
    ensures r == [] || !IsWhiteSpace(r[0])
  {
    if |s| > 0 && IsWhiteSpace(s[0]) then TrimStart(s[1..]) else s
  }

  /** Everything `TrimStart` drops is white space. */
  lemma {:induction false} TrimStartDropsWhiteSpace(s: string)
    ensures AllWhiteSpace(s[..|s| - |TrimStart(s)|])
  {
    if |s| > 0 && IsWhiteSpace(s[0]) {
      TrimStartDropsWhiteSpace(s[1..]);
      var n := |s| - |TrimStart(s)|;
      forall i | 0 <= i < n ensures IsWhiteSpace(s[i]) {
        if i > 0 { assert s[i] == s[1..][..n - 1][i - 1]; }
      }
    }
  }

  /** Drops the trailing white space of `s`. */
  function TrimEnd(s: string): (r: string)
    ensures |r| <= |s| && r == s[..|r|]
    ensures r == [] || !IsWhiteSpace(r[|r| - 1])
  {
    if |s| > 0 && IsWhiteSpace(s[|s| - 1]) then TrimEnd(s[..|s| - 1]) else s
  }

  /** Everything `TrimEnd` drops is white space. */
  lemma {:induction false} TrimEndDropsWhiteSpace(s: string)
    ensures AllWhiteSpace(s[|TrimEnd(s)|..])
  {
    if |s| > 0 && IsWhiteSpace(s[|s| - 1]) {
      TrimEndDropsWhiteSpace(s[..|s| - 1]);
      var m := |TrimEnd(s)|;
      forall i | m <= i < |s| ensures IsWhiteSpace(s[i]) {
        if i < |s| - 1 { assert s[i] == s[..|s| - 1][m..][i - m]; }
      }
    }
  }

  /** `s.trim()`. */
  function Trim(s: string): string {
    TrimEnd(TrimStart(s))
  }

  /** `!s.trim()`: nothing is left once the white space is trimmed. */
  predicate IsBlank(s: string) {
    Trim(s) == []
  }

  /** A string is blank (`!s.trim()` holds) exactly when every character is white space. */
  lemma TrimEmptyIff(s: string)
    ensures IsBlank(s) <==> AllWhiteSpace(s)
  {
    var t := TrimStart(s);
    if Trim(s) == [] {
      TrimEndDropsWhiteSpace(t);
      TrimStartDropsWhiteSpace(s);
      assert t == [];
      assert s == s[..|s|];
    } else {
      var r := Trim(s);
      assert r[0] == t[0] == s[|s| - |t|];
    }
  }

  /** A trimmed string neither starts nor ends with white space, so trimming again changes nothing. */
  lemma TrimIdempotent(s: string)
    ensures var r := Trim(s); r == [] || (!IsWhiteSpace(r[0]) && !IsWhiteSpace(r[|r| - 1]))
    ensures Trim(Trim(s)) == Trim(s)
  {
    var t := TrimStart(s);
    var r := Trim(s);
    if r != [] {
      assert r[0] == t[0];
    }
  }

  /** `s.toLowerCase()`, with the case mapping supplied as a per-character function. */
  function Lower(s: string, lower: char -> char): string {
    seq(|s|, i requires 0 <= i < |s| => lower(s[i]))
  }

  /** Lowering a slice is slicing the lowered string. */
  lemma LowerSlice(s: string, lower: char -> char, i: int, j: int)
    requires 0 <= i <= j <= |s|
    ensures Lower(s, lower)[i..j] == Lower(s[i..j], lower)
  {
  }

  predicate IsPrefix(q: string, s: string) {
    |q| <= |s| && s[..|q|] == q
  }

  /** `s.includes(q)`, scanning left to right. */
  function Contains(s: string, q: string): bool {
    IsPrefix(q, s) || (|s| > 0 && Contains(s[1..], q))
  }

  /** `q` occurs in `s` starting at position `i`. */
  predicate OccursAt(s: string, q: string, i: int) {
    0 <= i <= |s| - |q| && s[i..i + |q|] == q
  }

  /** `Contains` holds exactly when `q` occurs in `s` at some position. */
  lemma {:induction false} ContainsIff(s: string, q: string)
    ensures Contains(s, q) <==> exists i :: OccursAt(s, q, i)
  {
    if |s| > 0 {
      ContainsIff(s[1..], q);
      if IsPrefix(q, s) {
        assert OccursAt(s, q, 0);
      }
      if Contains(s[1..], q) {
        var i :| OccursAt(s[1..], q, i);
        assert OccursAt(s, q, i + 1) by {
          assert s[i + 1..i + 1 + |q|] == s[1..][i..i + |q|];
        }
      }
      if exists i :: OccursAt(s, q, i) {
        var i :| OccursAt(s, q, i);
        if i > 0 {
          assert OccursAt(s[1..], q, i - 1) by {
            assert s[1..][i - 1..i - 1 + |q|] == s[i..i + |q|];
          }
        }
      }
    } else if Contains(s, q) {
      assert OccursAt(s, q, 0);
    }
  }

  /** A literal occurrence of `q` in `s` is still found once both are lowered with the same mapping. */
  lemma FoundIgnoringCase(s: string, q: string, i: int, lower: char -> char)
    requires OccursAt(s, q, i)
    ensures Contains(Lower(s, lower), Lower(q, lower))
  {
    LowerSlice(s, lower, i, i + |q|);
    assert OccursAt(Lower(s, lower), Lower(q, lower), i);
    ContainsIff(Lower(s, lower), Lower(q, lower));
  }
}
