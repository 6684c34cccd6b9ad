/** Small vocabulary shared by the models: optional values and the string searches
    that the original takes from its runtime library. */
module Core {

  datatype Option<+T> = None | Some(value: T)

  /** `w` occurs in `s` at offset `k`. */
  predicate At(s: string, k: nat, w: string) {
    k + |w| <= |s| && s[k..k + |w|] == w
  }

  /** `s.indexOf(w, from)`: the least offset at or after `from` where `w` occurs, or -1. */
  function IndexOf(s: string, w: string, from: nat): (r: int)
    ensures r == -1 || (from <= r <= |s| - |w| && At(s, r, w))
    decreases |s| - from
  {
    if from + |w| > |s| then -1
    else if At(s, from, w) then from
    else IndexOf(s, w, from + 1)
  }

  lemma {:induction false} IndexOfLeast(s: string, w: string, from: nat, k: nat)
    requires from <= k && At(s, k, w)
    ensures 0 <= IndexOf(s, w, from) <= k
    decreases k - from
  {
    if from < k && !At(s, from, w) {
      IndexOfLeast(s, w, from + 1, k);
    }
  }

  /** A search is not affected by offsets at which nothing occurs. */
  lemma {:induction false} IndexOfSkip(s: string, w: string, i: nat, j: nat)
    requires i <= j
    requires forall k: nat :: i <= k < j ==> !At(s, k, w)
    ensures IndexOf(s, w, i) == IndexOf(s, w, j)
    decreases j - i
  {
    if i < j {
      assert !At(s, i, w);
      IndexOfSkip(s, w, i + 1, j);
    }
  }

  /** Two adjacent pieces of a string occur where their concatenation does. */
  lemma {:induction false} AtSplit(s: string, k: nat, a: string, b: string)
    requires At(s, k, a + b)
    ensures At(s, k, a) && At(s, k + |a|, b)
  {
    assert s[k..k + |a + b|][..|a|] == s[k..k + |a|];
    assert s[k..k + |a + b|][|a|..] == s[k + |a|..k + |a| + |b|];
  }

  /** White space as the original's runtime defines it for `trim` and `\s`. */
  predicate IsSpace(c: char) {
    c == ' ' || '\t' <= c <= '\r' || c == '\U{00a0}' || c == '\U{1680}' || '\U{2000}' <= c <= '\U{200a}'
    || c == '\U{2028}' || c == '\U{2029}' || c == '\U{202f}' || c == '\U{205f}' || c == '\U{3000}' || c == '\U{feff}'
  }

  function TrimStart(s: string): string {
    if s != "" && IsSpace(s[0]) then TrimStart(s[1..]) else s
  }

  function TrimEnd(s: string): string {
    if s != "" && IsSpace(s[|s| - 1]) then TrimEnd(s[..|s| - 1]) else s
  }

  /** `s.trim()`. */
  function Trim(s: string): string { TrimEnd(TrimStart(s)) }

  lemma {:induction false} TrimNone(s: string)
    requires s != "" && !IsSpace(s[0]) && !IsSpace(s[|s| - 1])
    ensures Trim(s) == s
  {
  }

  /** `toLowerCase` on ASCII letters. */
  function LowerChar(c: char): char {
    if 'A' <= c <= 'Z' then (c as int + 32) as char else c
  }

  function Lower(s: string): (r: string)
    ensures |r| == |s|
  {
    if s == "" then "" else Lower(s[..|s| - 1]) + [LowerChar(s[|s| - 1])]
  }

  lemma {:induction false} LowerIndex(s: string, i: nat)
    requires i < |s|
    ensures Lower(s)[i] == LowerChar(s[i])
  {
    if i < |s| - 1 {
      LowerIndex(s[..|s| - 1], i);
    }
  }

  lemma {:induction false} LowerConcat(a: string, b: string)
    ensures Lower(a + b) == Lower(a) + Lower(b)
  {
    if b == "" {
      assert a + b == a;
    } else {
      assert (a + b)[..|a + b| - 1] == a + b[..|b| - 1];
      LowerConcat(a, b[..|b| - 1]);
    }
  }

  lemma {:induction false} LowerSame(s: string)
    requires forall i :: 0 <= i < |s| ==> LowerChar(s[i]) == s[i]
    ensures Lower(s) == s
  {
    forall i | 0 <= i < |s|
      ensures Lower(s)[i] == s[i]
    {
      LowerIndex(s, i);
    }
  }

  /** Trimming takes off white space at both ends and leaves none there. */
  lemma {:induction false} TrimExactly(s: string) returns (before: string, after: string)
    ensures s == before + Trim(s) + after
    ensures (forall c :: c in before + after ==> IsSpace(c))
    ensures Trim(s) != "" ==> !IsSpace(Trim(s)[0]) && !IsSpace(Trim(s)[|Trim(s)| - 1])
  {
    before := TrimStartExactly(s);
    after := TrimEndExactly(TrimStart(s));
    assert Trim(s) != "" ==> Trim(s)[0] == TrimStart(s)[0];
  }

  lemma {:induction false} TrimIs(before: string, s: string, after: string)
    requires (forall c :: c in before || c in after ==> IsSpace(c))
    requires s != "" ==> !IsSpace(s[0]) && !IsSpace(s[|s| - 1])
    ensures Trim(before + s + after) == s
  {
    assert before + s + after == before + (s + after);
    TrimStartDrops(before, s + after);
    if s == "" {
      TrimStartDrops(after, "");
      assert s + after == after + "";
    } else {
      TrimEndDrops(s, after);
    }
  }

  lemma {:induction false} TrimStartDrops(before: string, s: string)
    requires forall c :: c in before ==> IsSpace(c)
    ensures TrimStart(before + s) == TrimStart(s)
  {
    if before != "" {
      assert (before + s)[1..] == before[1..] + s;
      TrimStartDrops(before[1..], s);
    } else {
      assert before + s == s;
    }
  }

  lemma {:induction false} TrimEndDrops(s: string, after: string)
    requires forall c :: c in after ==> IsSpace(c)
    ensures TrimEnd(s + after) == TrimEnd(s)
  {
    if after != "" {
      assert (s + after)[..|s + after| - 1] == s + after[..|after| - 1];
      TrimEndDrops(s, after[..|after| - 1]);
    } else {
      assert s + after == s;
    }
  }

  lemma {:induction false} TrimStartExactly(s: string) returns (before: string)
    ensures s == before + TrimStart(s) && (forall c :: c in before ==> IsSpace(c))
    ensures TrimStart(s) != "" ==> !IsSpace(TrimStart(s)[0])
  {
    before := "";
    if s != "" && IsSpace(s[0]) {
      var rest := TrimStartExactly(s[1..]);
      before := [s[0]] + rest;
    }
  }

  lemma {:induction false} TrimEndExactly(s: string) returns (after: string)
    ensures s == TrimEnd(s) + after && (forall c :: c in after ==> IsSpace(c))
    ensures TrimEnd(s) != "" ==> !IsSpace(TrimEnd(s)[|TrimEnd(s)| - 1])
  {
    after := "";
    if s != "" && IsSpace(s[|s| - 1]) {
      var rest := TrimEndExactly(s[..|s| - 1]);
      after := rest + [s[|s| - 1]];
    }
  }

  // ----- cutting and splitting -----

  /** The text before the first `sep`, and the text after it if there is one. */
  function Cut(s: string, sep: char): (string, Option<string>) {
    if s == "" then ("", None)
    else if s[0] == sep then ("", Some(s[1..]))
    else
      var (before, after) := Cut(s[1..], sep);
      ([s[0]] + before, after)
  }

  lemma {:induction false} CutShrinks(s: string, sep: char)
    ensures Cut(s, sep).1.Some? ==> |Cut(s, sep).1.value| < |s|
  {
    if s != "" && s[0] != sep {
      CutShrinks(s[1..], sep);
    }
  }

  /** `s.split(sep)`. */
  function Split(s: string, sep: char): (r: seq<string>)
    ensures |r| > 0
    decreases |s|
  {
    CutShrinks(s, sep);
    var (before, after) := Cut(s, sep);
    if after.None? then [before] else [before] + Split(after.value, sep)
  }

  function Join(parts: seq<string>, sep: char): string {
    if parts == [] then ""
    else if |parts| == 1 then parts[0]
    else parts[0] + [sep] + Join(parts[1..], sep)
  }

  lemma {:induction false} CutAt(before: string, sep: char, after: string)
    requires sep !in before
    ensures Cut(before + [sep] + after, sep) == (before, Some(after))
    decreases |before|
  {
    var s := before + [sep] + after;
    if before == "" {
      assert s[1..] == after;
    } else {
      assert s[1..] == before[1..] + [sep] + after;
      CutAt(before[1..], sep, after);
      assert [before[0]] + before[1..] == before;
    }
  }

  lemma {:induction false} CutNone(s: string, sep: char)
    requires sep !in s
    ensures Cut(s, sep) == (s, None)
    decreases |s|
  {
    if s != "" {
      CutNone(s[1..], sep);
      assert [s[0]] + s[1..] == s;
    }
  }

  /** Splitting undoes joining when no part holds the separator. */
  lemma {:induction false} SplitJoin(parts: seq<string>, sep: char)
    requires |parts| > 0 && forall p :: p in parts ==> sep !in p
    ensures Split(Join(parts, sep), sep) == parts
    decreases |parts|
  {
    if |parts| == 1 {
      CutNone(parts[0], sep);
    } else {
      CutAt(parts[0], sep, Join(parts[1..], sep));
      SplitJoin(parts[1..], sep);
    }
  }

  // ----- numbers and numerals -----

  function Pow2(n: nat): (r: nat)
    ensures r >= 1
  {
    if n == 0 then 1 else 2 * Pow2(n - 1)
  }

  predicate IsDigit(c: char) { '0' <= c <= '9' }

  predicate IsHex(c: char) { IsDigit(c) || 'a' <= c <= 'f' || 'A' <= c <= 'F' }

  predicate IsNumeral(s: string) { s != "" && forall i :: 0 <= i < |s| ==> IsDigit(s[i]) }

  function DecimalValue(s: string): nat
    requires forall i :: 0 <= i < |s| ==> IsDigit(s[i])
  {
    if s == "" then 0 else
    assert IsDigit(s[|s| - 1]);
    10 * DecimalValue(s[..|s| - 1]) + (s[|s| - 1] as int - '0' as int)
  }

  function Decimal(n: nat): string {
    var last := ['0' + (n % 10) as char];
    if n < 10 then last else Decimal(n / 10) + last
  }

  lemma {:induction false} DecimalRead(n: nat)
    ensures IsNumeral(Decimal(n)) && DecimalValue(Decimal(n)) == n
  {
    if n >= 10 {
      DecimalRead(n / 10);
      assert Decimal(n)[..|Decimal(n)| - 1] == Decimal(n / 10);
    }
  }
}
