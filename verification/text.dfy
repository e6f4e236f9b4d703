/**
 * The JavaScript string operations the pages rely on, restated over `string`
 * (a `seq<char>`): `toLowerCase`, `trim`, `includes`, `substring`, `split`
 * on a character class, the truthiness of a string, `Number.prototype.toString`
 * for the millisecond clock, and the default `Array.prototype.sort` order.
 */
module Text {

  /** A JavaScript string is truthy exactly when it is not empty. */
  predicate Truthy(s: string) {
    s != ""
  }

  // ---------------------------------------------------------------- case folding

  /** `toLowerCase` on one character; only the ASCII letters are folded. */
  function LowerChar(c: char): char {
    if 'A' <= c <= 'Z' then (c as int + 32) as char else c
  }

  function Lower(s: string): (r: string)
    ensures |r| == |s|
    ensures forall i :: 0 <= i < |s| ==> r[i] == LowerChar(s[i])
  {
    seq(|s|, i requires 0 <= i < |s| => LowerChar(s[i]))
  }

  // ---------------------------------------------------------------- trimming

  /**
   * The characters `String.prototype.trim` strips, the WhiteSpace and
   * LineTerminator productions of ECMA-262: tab, vertical tab, form feed, the
   * byte-order mark, the Unicode space separators (category Zs) and the four
   * line terminators.
   */
  predicate IsSpace(c: char) {
    || c == '\t' || c == '\U{000B}' || c == '\U{000C}' || c == '\U{FEFF}'
    || c == ' ' || c == '\U{00A0}' || c == '\U{1680}' || '\U{2000}' <= c <= '\U{200A}'
    || c == '\U{202F}' || c == '\U{205F}' || c == '\U{3000}'
    || c == '\n' || c == '\r' || c == '\U{2028}' || c == '\U{2029}'
  }

  /** A string made of white space only: the strings whose `trim()` is falsy. */
  predicate IsBlank(s: string) {
    forall i :: 0 <= i < |s| ==> IsSpace(s[i])
  }

  function TrimStart(s: string): (r: string)
    ensures |r| <= |s| && r == s[|s| - |r|..]
    ensures r == [] || !IsSpace(r[0])
    ensures IsBlank(s[..|s| - |r|])
  {
    if |s| > 0 && IsSpace(s[0]) then
      var r := TrimStart(s[1..]);
      assert s[1..][..|s| - 1 - |r|] == s[1..|s| - |r|];
      r
    else s
  }

  function TrimEnd(s: string): (r: string)
    ensures |r| <= |s| && r == s[..|r|]
    ensures r == [] || !IsSpace(r[|r| - 1])
    ensures IsBlank(s[|r|..])
  {
    if |s| > 0 && IsSpace(s[|s| - 1]) then
      var r := TrimEnd(s[..|s| - 1]);
      assert s[|r|..] == s[..|s| - 1][|r|..] + [s[|s| - 1]];
      r
    else s
  }

  /** `String.prototype.trim`: `s` without its leading and trailing white space. */
  function Trim(s: string): (r: string)
    ensures |r| <= |s|
    ensures r == [] || (!IsSpace(r[0]) && !IsSpace(r[|r| - 1]))
    ensures r == [] <==> IsBlank(s)
  {
    TrimFacts(s);
    TrimEnd(TrimStart(s))
  }

  /** Trimming only removes characters: what is left is a contiguous piece of `s`. */
  lemma TrimIsInfix(s: string) returns (k: nat)
    ensures k + |Trim(s)| <= |s| && Trim(s) == s[k..k + |Trim(s)|]
  {
    var t := TrimStart(s);
    k := |s| - |t|;
    var r := TrimEnd(t);
    assert r == t[..|r|];
  }

  lemma TrimFacts(s: string)
    ensures TrimEnd(TrimStart(s)) == [] <==> IsBlank(s)
  {
    var t := TrimStart(s);
    var k := |s| - |t|;
    var r := TrimEnd(t);
    if r == [] {
      assert IsBlank(t[0..]);
      assert IsBlank(s[..k]);
      forall i | 0 <= i < |s|
        ensures IsSpace(s[i])
      {
        if i < k {
          assert s[i] == s[..k][i];
        } else {
          assert s[i] == t[i - k];
        }
      }
    } else {
      assert s[k] == t[0];
    }
  }

  // ---------------------------------------------------------------- searching

  /** `String.prototype.includes`: `t` occurs in `s` at some offset. */
  predicate Contains(s: string, t: string)
    decreases |s|
  {
    t <= s || (|s| > 0 && Contains(s[1..], t))
  }

  /** Every string contains the empty string, so an empty search term matches everything. */
  lemma ContainsEmpty(s: string)
    ensures Contains(s, "")
  {
  }

  /** `t` occurs in `s` starting at offset `k`. */
  predicate OccursAt(s: string, t: string, k: int) {
    0 <= k <= |s| - |t| && s[k..k + |t|] == t
  }

  lemma {:induction false} OccursImpliesContains(s: string, t: string, k: int)
    requires OccursAt(s, t, k)
    ensures Contains(s, t)
    decreases k
  {
    if k > 0 {
      assert s[1..][k - 1..k - 1 + |t|] == s[k..k + |t|];
      OccursImpliesContains(s[1..], t, k - 1);
    }
  }

  lemma {:induction false} ContainsImpliesOccurs(s: string, t: string) returns (k: int)
    requires Contains(s, t)
    ensures OccursAt(s, t, k)
    decreases |s|
  {
    if t <= s {
      k := 0;
    } else {
      var j := ContainsImpliesOccurs(s[1..], t);
      assert s[1..][j..j + |t|] == s[j + 1..j + 1 + |t|];
      k := j + 1;
    }
  }

  /** `includes` agrees with the offset definition: `t` occurs in `s` at some offset. */
  lemma ContainsIffOccurs(s: string, t: string)
    ensures Contains(s, t) <==> exists k :: OccursAt(s, t, k)
  {
    if Contains(s, t) {
      var k := ContainsImpliesOccurs(s, t);
    }
    if exists k :: OccursAt(s, t, k) {
      var k :| OccursAt(s, t, k);
      OccursImpliesContains(s, t, k);
    }
  }

  // ---------------------------------------------------------------- substrings

  /** Clamps an index into `[0, len]`, as `substring` does with its arguments. */
  function Clamp(n: int, len: nat): (r: nat)
    ensures r <= len
    ensures 0 <= n <= len ==> r == n
  {
    if n < 0 then 0 else if n > len then len else n
  }

  /** `String.prototype.substring(a, b)`: both ends clamped, swapped when `a > b`. */
  function Substring(s: string, a: int, b: int): (r: string)
    ensures 0 <= a <= b <= |s| ==> r == s[a..b]
    ensures 0 <= b <= a <= |s| ==> r == s[b..a]
  {
    var x := Clamp(a, |s|);
    var y := Clamp(b, |s|);
    if x <= y then s[x..y] else s[y..x]
  }

  // ---------------------------------------------------------------- splitting

  /** Removes every character that `sep` selects. */
  function Without(s: string, sep: char -> bool): (r: string)
    ensures forall i :: 0 <= i < |r| ==> !sep(r[i])
  {
    if s == [] then [] else (if sep(s[0]) then [] else [s[0]]) + Without(s[1..], sep)
  }

  function Concat(pieces: seq<string>): string {
    if pieces == [] then [] else pieces[0] + Concat(pieces[1..])
  }

  function CountWhere(s: string, sep: char -> bool): nat {
    if s == [] then 0 else (if sep(s[0]) then 1 else 0) + CountWhere(s[1..], sep)
  }

  /**
   * `String.prototype.split` with a one-character-class regular expression:
   * cuts `s` at every character `sep` selects. As in JavaScript, the empty
   * string splits into one empty piece and adjacent separators give empty pieces.
   */
  function SplitWhere(s: string, sep: char -> bool): (r: seq<string>)
    ensures |r| >= 1
  {
    if s == [] then [""]
    else
      var rest := SplitWhere(s[1..], sep);
      if sep(s[0]) then [""] + rest else [[s[0]] + rest[0]] + rest[1..]
  }

  /**
   * The pieces of a split hold no separator, there is one more piece than
   * separators, and gluing the pieces back together gives `s` with its
   * separators removed.
   */
  lemma {:induction false} SplitWhereFacts(s: string, sep: char -> bool)
    ensures forall p, i :: p in SplitWhere(s, sep) && 0 <= i < |p| ==> !sep(p[i])
    ensures |SplitWhere(s, sep)| == CountWhere(s, sep) + 1
    ensures Concat(SplitWhere(s, sep)) == Without(s, sep)
    decreases |s|
  {
    if s != [] {
      var rest := SplitWhere(s[1..], sep);
      SplitWhereFacts(s[1..], sep);
      if sep(s[0]) {
        assert SplitWhere(s, sep) == [""] + rest;
        assert Concat([""] + rest) == Concat(rest);
      } else {
        SplitJoinStep(s[0], rest, sep);
      }
    }
  }

  /** A separator-free piece followed by a separator is the first piece of the split. */
  lemma {:induction false} SplitAtSep(a: string, c: char, b: string, sep: char -> bool)
    requires forall i :: 0 <= i < |a| ==> !sep(a[i])
    requires sep(c)
    ensures SplitWhere(a + [c] + b, sep) == [a] + SplitWhere(b, sep)
    decreases |a|
  {
    if a == [] {
      assert a + [c] + b == [c] + b;
      assert ([c] + b)[1..] == b;
    } else {
      SplitAtSep(a[1..], c, b, sep);
      assert (a + [c] + b)[1..] == a[1..] + [c] + b;
      assert [a[0]] + a[1..] == a;
    }
  }

  /** A non-separator in front of a split joins its first piece. */
  lemma SplitJoinStep(c: char, rest: seq<string>, sep: char -> bool)
    requires !sep(c) && |rest| >= 1
    requires forall p, i :: p in rest && 0 <= i < |p| ==> !sep(p[i])
    ensures var r := [[c] + rest[0]] + rest[1..];
      && (forall p, i :: p in r && 0 <= i < |p| ==> !sep(p[i]))
      && |r| == |rest|
      && Concat(r) == [c] + Concat(rest)
  {
    JoinedPieceClean(c, rest, sep);
    JoinedConcat(c, rest);
  }

  lemma JoinedPieceClean(c: char, rest: seq<string>, sep: char -> bool)
    requires !sep(c) && |rest| >= 1
    requires forall p, i :: p in rest && 0 <= i < |p| ==> !sep(p[i])
    ensures forall p, i :: p in [[c] + rest[0]] + rest[1..] && 0 <= i < |p| ==> !sep(p[i])
  {
    var head := [c] + rest[0];
    assert rest[0] in rest;
    forall i | 0 <= i < |head|
      ensures !sep(head[i])
    {
      if i > 0 {
        assert head[i] == rest[0][i - 1];
      }
    }
    forall p | p in rest[1..]
      ensures p in rest
    {
    }
  }

  lemma JoinedConcat(c: char, rest: seq<string>)
    requires |rest| >= 1
    ensures Concat([[c] + rest[0]] + rest[1..]) == [c] + Concat(rest)
  {
    var r := [[c] + rest[0]] + rest[1..];
    assert r[1..] == rest[1..];
    assert Concat(rest) == rest[0] + Concat(rest[1..]);
    assert Concat(r) == ([c] + rest[0]) + Concat(rest[1..]);
  }

  // ---------------------------------------------------------------- numbers

  function DigitChar(d: nat): char
    requires d < 10
  {
    "0123456789"[d]
  }

  /** The decimal rendering of a non-negative integer, as `${Date.now()}` produces it. */
  function Decimal(n: nat): (r: string)
    ensures |r| >= 1
    ensures forall i :: 0 <= i < |r| ==> '0' <= r[i] <= '9'
  {
    if n < 10 then [DigitChar(n)] else Decimal(n / 10) + [DigitChar(n % 10)]
  }

  // ---------------------------------------------------------------- ordering

  /** The default `Array.prototype.sort` order on strings: lexicographic by character. */
  predicate Less(a: string, b: string)
    decreases |a|
  {
    if a == [] then b != []
    else if b == [] then false
    else if a[0] != b[0] then a[0] < b[0]
    else Less(a[1..], b[1..])
  }

  lemma {:induction false} LessIrreflexive(a: string)
    ensures !Less(a, a)
    decreases |a|
  {
    if a != [] {
      LessIrreflexive(a[1..]);
    }
  }

  lemma {:induction false} LessTotal(a: string, b: string)
    ensures a == b || Less(a, b) || Less(b, a)
    decreases |a|
  {
    if a != [] && b != [] && a[0] == b[0] {
      LessTotal(a[1..], b[1..]);
      if a[1..] == b[1..] {
        assert a == [a[0]] + a[1..] && b == [b[0]] + b[1..];
      }
    }
  }

  lemma {:induction false} LessTransitive(a: string, b: string, c: string)
    requires Less(a, b) && Less(b, c)
    ensures Less(a, c)
    decreases |a|
  {
    if a != [] && a[0] == b[0] && b[0] == c[0] {
      LessTransitive(a[1..], b[1..], c[1..]);
    }
  }

  /** The order never holds both ways. */
  lemma LessAntisymmetric(a: string, b: string)
    ensures !(Less(a, b) && Less(b, a))
  {
    if Less(a, b) {
      LessAsymmetric(a, b);
    }
  }

  lemma LessAsymmetric(a: string, b: string)
    requires Less(a, b)
    ensures !Less(b, a)
  {
    if Less(b, a) {
      LessTransitive(a, b, a);
      LessIrreflexive(a);
    }
  }
}
