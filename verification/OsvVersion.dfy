/** Version comparison for advisory matching (`libs/vuln-intel/src/osv-range.ts`). */
module OsvVersion {
  import opened Core

  // ----- three-way comparisons -----

  function Sign(x: int): int { if x < 0 then -1 else if x > 0 then 1 else 0 }

  /** A comparison whose sign is antisymmetric and whose "at most" is transitive: a total preorder. */
  ghost predicate Preorder<T(!new)>(cmp: (T, T) -> int) {
    && (forall a, b :: cmp(a, b) == -cmp(b, a))
    && (forall a, b, c :: cmp(a, b) <= 0 && cmp(b, c) <= 0 ==> cmp(a, c) <= 0)
  }

  /** Dictionary order over sequences; a proper prefix comes first. */
  function Lex<T>(cmp: (T, T) -> int, xs: seq<T>, ys: seq<T>): int {
    if xs == [] then (if ys == [] then 0 else -1)
    else if ys == [] then 1
    else
      var c := cmp(xs[0], ys[0]);
      if c != 0 then c else Lex(cmp, xs[1..], ys[1..])
  }

  lemma {:induction false} LexAntisymmetric<T(!new)>(cmp: (T, T) -> int, xs: seq<T>, ys: seq<T>)
    requires Preorder(cmp)
    ensures Lex(cmp, xs, ys) == -Lex(cmp, ys, xs)
  {
    if xs != [] && ys != [] && cmp(xs[0], ys[0]) == 0 {
      LexAntisymmetric(cmp, xs[1..], ys[1..]);
    }
  }

  lemma {:induction false} LexTransitive<T(!new)>(cmp: (T, T) -> int, xs: seq<T>, ys: seq<T>, zs: seq<T>)
    requires Preorder(cmp) && Lex(cmp, xs, ys) <= 0 && Lex(cmp, ys, zs) <= 0
    ensures Lex(cmp, xs, zs) <= 0
  {
    if xs != [] && ys != [] && zs != [] {
      var x, y, z := xs[0], ys[0], zs[0];
      assert cmp(x, y) <= 0 && cmp(y, z) <= 0;
      if cmp(x, z) == 0 {
        assert cmp(z, x) <= 0;
        assert cmp(y, x) <= 0 && cmp(z, y) <= 0;
        LexTransitive(cmp, xs[1..], ys[1..], zs[1..]);
      }
    }
  }

  lemma {:induction false} LexPreorder<T(!new)>(cmp: (T, T) -> int)
    requires Preorder(cmp)
    ensures Preorder((xs, ys) => Lex(cmp, xs, ys))
  {
    var lex := (xs, ys) => Lex(cmp, xs, ys);
    forall xs, ys
      ensures lex(xs, ys) == -lex(ys, xs)
    {
      LexAntisymmetric(cmp, xs, ys);
    }
    forall xs, ys, zs | lex(xs, ys) <= 0 && lex(ys, zs) <= 0
      ensures lex(xs, zs) <= 0
    {
      LexTransitive(cmp, xs, ys, zs);
    }
  }

  // ----- the comparison -----

  function CompareChars(a: char, b: char): int { if a < b then -1 else if b < a then 1 else 0 }

  function CompareStrings(a: string, b: string): int { Lex(CompareChars, a, b) }

  function CompareNumbers(a: nat, b: nat): int { if a < b then -1 else if b < a then 1 else 0 }

  /** Numeric segments by value and before all others, the others as strings. */
  function CompareSegments(a: string, b: string): int {
    if IsNumeral(a) && IsNumeral(b) then CompareNumbers(DecimalValue(a), DecimalValue(b))
    else if IsNumeral(a) then -1
    else if IsNumeral(b) then 1
    else CompareStrings(a, b)
  }

  function CompareSegmentLists(xs: seq<string>, ys: seq<string>): int { Lex(CompareSegments, xs, ys) }

  function StripV(s: string): string {
    if s != "" && (s[0] == 'v' || s[0] == 'V') then s[1..] else s
  }

  /** Trimmed, without one leading `v`, and cut at the first `+`. */
  function Normalize(v: string): string { Cut(StripV(Trim(v)), '+').0 }

  /** Main version and prerelease, cut at the first dash. */
  function SplitPrerelease(v: string): (string, Option<string>) { Cut(v, '-') }

  method CompareDotted(a: string, b: string) returns (r: int)
    ensures r == CompareSegmentLists(Split(a, '.'), Split(b, '.'))
  {
    var segsA, segsB := Split(a, '.'), Split(b, '.');
    var len := if |segsA| >= |segsB| then |segsA| else |segsB|;
    for i := 0 to len
      invariant i <= |segsA| && i <= |segsB|
      invariant CompareSegmentLists(segsA[i..], segsB[i..]) == CompareSegmentLists(segsA, segsB)
    {
      if i >= |segsA| {
        return -1;
      }
      if i >= |segsB| {
        return 1;
      }
      var sa, sb := segsA[i], segsB[i];
      if IsNumeral(sa) && IsNumeral(sb) {
        var na, nb := DecimalValue(sa), DecimalValue(sb);
        if na != nb {
          return if na < nb then -1 else 1;
        }
      } else if IsNumeral(sa) {
        return -1;
      } else if IsNumeral(sb) {
        return 1;
      } else if sa != sb {
        StringsDiffer(sa, sb);
        return if CompareStrings(sa, sb) < 0 then -1 else 1;
      } else {
        StringsEqual(sa);
      }
    }
    return 0;
  }

  lemma {:induction false} StringsEqual(a: string)
    ensures CompareStrings(a, a) == 0
  {
    if a != "" {
      StringsEqual(a[1..]);
    }
  }

  lemma {:induction false} StringsDiffer(a: string, b: string)
    requires a != b
    ensures CompareStrings(a, b) == 1 || CompareStrings(a, b) == -1
  {
    if a != "" && b != "" && a[0] == b[0] {
      assert a == [a[0]] + a[1..] && b == [b[0]] + b[1..];
      StringsDiffer(a[1..], b[1..]);
    }
  }

  function ComparePrereleases(a: Option<string>, b: Option<string>): int {
    if a.None? then (if b.None? then 0 else 1)
    else if b.None? then -1
    else CompareSegmentLists(Split(a.value, '.'), Split(b.value, '.'))
  }

  function CompareVersions(a: string, b: string): int {
    var (mainA, preA) := SplitPrerelease(Normalize(a));
    var (mainB, preB) := SplitPrerelease(Normalize(b));
    var main := CompareSegmentLists(Split(mainA, '.'), Split(mainB, '.'));
    if main != 0 then main else ComparePrereleases(preA, preB)
  }

  // ----- the comparison is a total preorder -----

  lemma {:induction false} SegmentsPreorder()
    ensures Preorder(CompareSegments)
  {
    LexPreorder(CompareChars);
    var lex := (xs, ys) => Lex(CompareChars, xs, ys);
    forall a, b
      ensures CompareSegments(a, b) == -CompareSegments(b, a)
    {
      assert lex(a, b) == -lex(b, a);
    }
    forall a, b, c | CompareSegments(a, b) <= 0 && CompareSegments(b, c) <= 0
      ensures CompareSegments(a, c) <= 0
    {
      assert lex(a, b) <= 0 && lex(b, c) <= 0 ==> lex(a, c) <= 0;
    }
  }

  lemma {:induction false} SegmentListsPreorder()
    ensures Preorder(CompareSegmentLists)
  {
    SegmentsPreorder();
    LexPreorder(CompareSegments);
    var lex := (xs, ys) => Lex(CompareSegments, xs, ys);
    assert forall xs, ys :: CompareSegmentLists(xs, ys) == lex(xs, ys);
  }

  lemma {:induction false} PrereleasesPreorder()
    ensures Preorder(ComparePrereleases)
  {
    SegmentListsPreorder();
  }

  /** Signs are antisymmetric and "at most" is transitive, for all strings whatever. */
  lemma {:induction false} VersionsPreorder()
    ensures Preorder(CompareVersions)
  {
    SegmentListsPreorder();
    PrereleasesPreorder();
    forall a, b, c | CompareVersions(a, b) <= 0 && CompareVersions(b, c) <= 0
      ensures CompareVersions(a, c) <= 0
    {
      var x, y, z := SplitPrerelease(Normalize(a)), SplitPrerelease(Normalize(b)), SplitPrerelease(Normalize(c));
      var xs, ys, zs := Split(x.0, '.'), Split(y.0, '.'), Split(z.0, '.');
      assert CompareSegmentLists(xs, ys) <= 0 && CompareSegmentLists(ys, zs) <= 0;
      if CompareSegmentLists(xs, zs) == 0 {
        assert CompareSegmentLists(zs, xs) <= 0;
        assert CompareSegmentLists(ys, xs) <= 0 && CompareSegmentLists(zs, ys) <= 0;
        assert ComparePrereleases(x.1, y.1) <= 0 && ComparePrereleases(y.1, z.1) <= 0;
      }
    }
  }

  /** Versions that compare equal compare alike with every version. */
  lemma {:induction false} EqualVersionsCompareAlike(a: string, b: string, c: string)
    requires CompareVersions(a, b) == 0
    ensures Sign(CompareVersions(a, c)) == Sign(CompareVersions(b, c))
  {
    VersionsPreorder();
    assert CompareVersions(b, a) == 0;
  }

  // ----- what does not order -----

  lemma {:induction false} TrimStartAppend(a: string, b: string)
    requires b != "" && !IsSpace(b[0])
    ensures TrimStart(a + b) == TrimStart(a) + b
  {
    if a == "" {
      assert a + b == b;
    } else if IsSpace(a[0]) {
      assert (a + b)[1..] == a[1..] + b;
      TrimStartAppend(a[1..], b);
    }
  }

  lemma {:induction false} TrimEndAppend(x: string, y: string)
    requires x != "" && !IsSpace(x[|x| - 1])
    ensures TrimEnd(x + y) == x + TrimEnd(y)
  {
    if y == "" {
      assert x + y == x;
    } else if IsSpace(y[|y| - 1]) {
      assert (x + y)[..|x + y| - 1] == x + y[..|y| - 1];
      TrimEndAppend(x, y[..|y| - 1]);
    }
  }

  lemma {:induction false} TrimStartEnd(a: string)
    requires a == "" || !IsSpace(a[|a| - 1])
    ensures TrimEnd(TrimStart(a)) == TrimStart(a)
  {
    if a != "" && IsSpace(a[0]) {
      TrimStartEnd(a[1..]);
    }
  }

  lemma {:induction false} CutSame(x: string, y: string, sep: char)
    ensures Cut(x + [sep] + y, sep).0 == Cut(x, sep).0
    decreases |x|
  {
    if x != "" {
      assert (x + [sep] + y)[1..] == x[1..] + [sep] + y;
      CutSame(x[1..], y, sep);
    }
  }

  /** What is left of a text with a plus sign in it depends on the text before the plus sign. */
  lemma {:induction false} NormalizePlus(a: string, build: string)
    ensures Normalize(a + "+" + build) == Cut(StripV(TrimStart(a)), '+').0
  {
    hide TrimStart, TrimEnd, Cut;
    var x := TrimStart(a);
    assert a + "+" + build == a + ("+" + build);
    TrimStartAppend(a, "+" + build);
    assert x + ("+" + build) == x + "+" + build;
    TrimEndAppend(x + "+", build);
    var tail := TrimEnd(build);
    assert StripV(x + "+" + tail) == StripV(x) + ['+'] + tail;
    CutSame(StripV(x), tail, '+');
  }

  /** Build metadata never orders: what follows a plus sign does not matter, and neither does the plus
      sign itself after a text that does not end in white space. */
  lemma {:induction false} BuildMetadataIgnored(a: string, build: string, build': string, other: string)
    ensures CompareVersions(a + "+" + build, other) == CompareVersions(a + "+" + build', other)
    ensures a == "" || !IsSpace(a[|a| - 1]) ==> CompareVersions(a + "+" + build, other) == CompareVersions(a, other)
  {
    hide CompareSegmentLists, ComparePrereleases, SplitPrerelease, TrimStart, TrimEnd, Cut;
    NormalizePlus(a, build);
    NormalizePlus(a, build');
    if a == "" || !IsSpace(a[|a| - 1]) {
      TrimStartEnd(a);
    }
  }

  /** One leading `v` is dropped and what follows it is taken as it stands, so it does not order
      before a text that starts neither with another one nor with white space. */
  lemma {:induction false} LeadingVIgnored(v: char, a: string, other: string)
    requires v == 'v' || v == 'V'
    ensures Normalize([v] + a) == Cut(TrimEnd(a), '+').0
    ensures a == "" || !(IsSpace(a[0]) || a[0] == 'v' || a[0] == 'V') ==>
      CompareVersions([v] + a, other) == CompareVersions(a, other)
  {
    hide CompareSegmentLists, ComparePrereleases, SplitPrerelease, TrimEnd, Cut;
    TrimEndAppend([v], a);
    assert TrimStart([v] + a) == [v] + a;
    assert StripV([v] + TrimEnd(a)) == TrimEnd(a);
    if a == "" || !(IsSpace(a[0]) || a[0] == 'v' || a[0] == 'V') {
      TrimEndStart(a);
      assert TrimStart(a) == a && StripV(TrimEnd(a)) == TrimEnd(a);
      assert Normalize([v] + a) == Normalize(a);
    }
  }

  lemma {:induction false} TrimEndStart(a: string)
    ensures TrimEnd(a) == "" || (a != "" && TrimEnd(a)[0] == a[0])
  {
    if a != "" && IsSpace(a[|a| - 1]) {
      TrimEndStart(a[..|a| - 1]);
    }
  }
}
