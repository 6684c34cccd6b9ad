/** The precedence rules of section 11 of Semantic Versioning 2.0.0, defined on version values,
    and the proof that the string comparison of `libs/vuln-intel/src/osv-range.ts` decides them. */
module SemVer {
  import opened Core
  import opened OsvVersion

  // ----- versions and their text -----

  datatype Identifier = Number(n: nat) | Word(s: string)

  datatype Version = Version(major: nat, minor: nat, patch: nat, pre: seq<Identifier>, build: Option<string>)

  predicate IsIdentifierChar(c: char) {
    IsDigit(c) || 'a' <= c <= 'z' || 'A' <= c <= 'Z' || c == '-'
  }

  predicate ValidIdentifier(id: Identifier) {
    id.Word? ==> id.s != "" && (forall i :: 0 <= i < |id.s| ==> IsIdentifierChar(id.s[i])) && !IsNumeral(id.s)
  }

  /** Build metadata: identifiers and dots. */
  predicate ValidBuild(s: string) {
    s != "" && forall i :: 0 <= i < |s| ==> IsIdentifierChar(s[i]) || s[i] == '.'
  }

  predicate ValidVersion(v: Version) {
    && (forall i :: 0 <= i < |v.pre| ==> ValidIdentifier(v.pre[i]))
    && (v.build.Some? ==> ValidBuild(v.build.value))
  }

  function IdentifierText(id: Identifier): string {
    match id
    case Number(n) => Decimal(n)
    case Word(s) => s
  }

  function Texts(ids: seq<Identifier>): (r: seq<string>)
    ensures |r| == |ids|
  {
    if ids == [] then [] else [IdentifierText(ids[0])] + Texts(ids[1..])
  }

  function CoreText(v: Version): string {
    Join([Decimal(v.major), Decimal(v.minor), Decimal(v.patch)], '.')
  }

  function PreText(v: Version): string {
    if v.pre == [] then "" else "-" + Join(Texts(v.pre), '.')
  }

  function BuildText(v: Version): string {
    if v.build.None? then "" else "+" + v.build.value
  }

  function Print(v: Version): string { CoreText(v) + PreText(v) + BuildText(v) }

  // ----- precedence -----

  /** `xs` is a proper prefix of `ys`, or smaller at the first place where they differ. */
  ghost predicate DictionaryLess<T>(less: (T, T) -> bool, xs: seq<T>, ys: seq<T>) {
    || (|xs| < |ys| && xs == ys[..|xs|])
    || exists k :: 0 <= k < |xs| && k < |ys| && xs[..k] == ys[..k] && less(xs[k], ys[k])
  }

  predicate CharLess(a: char, b: char) { a < b }

  ghost predicate IdentifierLess(a: Identifier, b: Identifier) {
    match (a, b)
    case (Number(m), Number(n)) => m < n
    case (Number(_), Word(_)) => true
    case (Word(_), Number(_)) => false
    case (Word(s), Word(t)) => DictionaryLess(CharLess, s, t)
  }

  ghost predicate PrereleaseLess(p: seq<Identifier>, q: seq<Identifier>) {
    p != [] && (q == [] || DictionaryLess((a, b) => IdentifierLess(a, b), p, q))
  }

  ghost predicate Precedes(v: Version, w: Version) {
    || v.major < w.major
    || (v.major == w.major && v.minor < w.minor)
    || (v.major == w.major && v.minor == w.minor && v.patch < w.patch)
    || (SameCore(v, w) && PrereleaseLess(v.pre, w.pre))
  }

  predicate SameCore(v: Version, w: Version) {
    v.major == w.major && v.minor == w.minor && v.patch == w.patch
  }

  // ----- the comparisons decide the orders -----

  lemma {:induction false} DictionaryTail<T>(less: (T, T) -> bool, xs: seq<T>, ys: seq<T>)
    requires xs != [] && ys != [] && !less(xs[0], ys[0]) && DictionaryLess(less, xs, ys)
    ensures xs[0] == ys[0] && DictionaryLess(less, xs[1..], ys[1..])
  {
    var xs', ys' := xs[1..], ys[1..];
    if |xs| < |ys| && xs == ys[..|xs|] {
      assert xs' == ys'[..|xs'|];
    } else {
      var k :| 0 <= k < |xs| && k < |ys| && xs[..k] == ys[..k] && less(xs[k], ys[k]);
      assert xs[..k][0] == ys[..k][0];
      assert xs'[..k - 1] == xs[..k][1..] && ys'[..k - 1] == ys[..k][1..];
    }
  }

  lemma {:induction false} DictionaryCons<T>(less: (T, T) -> bool, xs: seq<T>, ys: seq<T>)
    requires xs != [] && ys != [] && xs[0] == ys[0] && DictionaryLess(less, xs[1..], ys[1..])
    ensures DictionaryLess(less, xs, ys)
  {
    var xs', ys' := xs[1..], ys[1..];
    if |xs'| < |ys'| && xs' == ys'[..|xs'|] {
      assert xs == [xs[0]] + xs' && ys[..|xs|] == [ys[0]] + ys'[..|xs'|];
    } else {
      var k :| 0 <= k < |xs'| && k < |ys'| && xs'[..k] == ys'[..k] && less(xs'[k], ys'[k]);
      assert xs[..k + 1] == [xs[0]] + xs'[..k] && ys[..k + 1] == [ys[0]] + ys'[..k];
    }
  }

  /** A comparison that decides `less` and equality of elements decides the dictionary order. */
  lemma {:induction false} LexDecides<T>(cmp: (T, T) -> int, less: (T, T) -> bool, xs: seq<T>, ys: seq<T>)
    requires forall i, j :: 0 <= i < |xs| && 0 <= j < |ys| ==>
      (cmp(xs[i], ys[j]) < 0 <==> less(xs[i], ys[j])) && (cmp(xs[i], ys[j]) == 0 <==> xs[i] == ys[j])
    ensures Lex(cmp, xs, ys) < 0 <==> DictionaryLess(less, xs, ys)
    ensures Lex(cmp, xs, ys) == 0 <==> xs == ys
  {
    if xs != [] && ys != [] {
      assert cmp(xs[0], ys[0]) < 0 <==> less(xs[0], ys[0]);
      assert xs == [xs[0]] + xs[1..] && ys == [ys[0]] + ys[1..];
      if less(xs[0], ys[0]) {
        assert xs[..0] == ys[..0];
      } else {
        LexDecides(cmp, less, xs[1..], ys[1..]);
        if DictionaryLess(less, xs, ys) {
          DictionaryTail(less, xs, ys);
        } else if xs[0] == ys[0] && DictionaryLess(less, xs[1..], ys[1..]) {
          DictionaryCons(less, xs, ys);
        }
      }
    }
  }

  lemma {:induction false} StringsDecide(a: string, b: string)
    ensures CompareStrings(a, b) < 0 <==> DictionaryLess(CharLess, a, b)
    ensures CompareStrings(a, b) == 0 <==> a == b
  {
    LexDecides(CompareChars, CharLess, a, b);
  }

  /** One or more decimal digits. */
  predicate IsNumber(s: string) { s != "" && forall i :: 0 <= i < |s| ==> '0' <= s[i] <= '9' }

  /** Of segments of any text: two numbers compare by value, a number comes before every other segment, and
      other segments come in the order of a dictionary; nothing else is equal. */
  lemma {:induction false} SegmentsExactly(a: string, b: string)
    ensures IsNumber(a) && IsNumber(b) ==>
      && (CompareSegments(a, b) < 0 <==> DecimalValue(a) < DecimalValue(b))
      && (CompareSegments(a, b) == 0 <==> DecimalValue(a) == DecimalValue(b))
    ensures IsNumber(a) && !IsNumber(b) ==> CompareSegments(a, b) < 0
    ensures !IsNumber(a) && IsNumber(b) ==> CompareSegments(a, b) > 0
    ensures !IsNumber(a) && !IsNumber(b) ==>
      (CompareSegments(a, b) < 0 <==> DictionaryLess(CharLess, a, b)) && (CompareSegments(a, b) == 0 <==> a == b)
  {
    hide CompareStrings, DecimalValue, DictionaryLess;
    StringsDecide(a, b);
  }

  function CompareIdentifiers(a: Identifier, b: Identifier): int {
    CompareSegments(IdentifierText(a), IdentifierText(b))
  }

  lemma {:induction false} IdentifiersDecide(a: Identifier, b: Identifier)
    requires ValidIdentifier(a) && ValidIdentifier(b)
    ensures CompareIdentifiers(a, b) < 0 <==> IdentifierLess(a, b)
    ensures CompareIdentifiers(a, b) == 0 <==> a == b
  {
    if a.Number? { DecimalRead(a.n); }
    if b.Number? { DecimalRead(b.n); }
    if a.Word? && b.Word? { StringsDecide(a.s, b.s); }
  }

  lemma {:induction false} LexTexts(p: seq<Identifier>, q: seq<Identifier>)
    ensures CompareSegmentLists(Texts(p), Texts(q)) == Lex(CompareIdentifiers, p, q)
  {
    if p != [] && q != [] {
      assert Texts(p)[1..] == Texts(p[1..]) && Texts(q)[1..] == Texts(q[1..]);
      LexTexts(p[1..], q[1..]);
    }
  }

  lemma {:induction false} PrereleasesDecide(p: seq<Identifier>, q: seq<Identifier>)
    requires forall i :: 0 <= i < |p| ==> ValidIdentifier(p[i])
    requires forall i :: 0 <= i < |q| ==> ValidIdentifier(q[i])
    ensures var c := CompareSegmentLists(Texts(p), Texts(q));
      (c < 0 <==> DictionaryLess((a, b) => IdentifierLess(a, b), p, q)) && (c == 0 <==> p == q)
  {
    forall i, j | 0 <= i < |p| && 0 <= j < |q|
      ensures (CompareIdentifiers(p[i], q[j]) < 0 <==> IdentifierLess(p[i], q[j]))
           && (CompareIdentifiers(p[i], q[j]) == 0 <==> p[i] == q[j])
    {
      IdentifiersDecide(p[i], q[j]);
    }
    LexTexts(p, q);
    LexDecides(CompareIdentifiers, (a, b) => IdentifierLess(a, b), p, q);
  }

  function CoreNumbers(v: Version): seq<Identifier> { [Number(v.major), Number(v.minor), Number(v.patch)] }

  lemma {:induction false} CoresDecide(v: Version, w: Version)
    ensures var c := CompareSegmentLists(Texts(CoreNumbers(v)), Texts(CoreNumbers(w)));
      && (c == 0 <==> SameCore(v, w))
      && (c < 0 <==>
          || v.major < w.major
          || (v.major == w.major && v.minor < w.minor)
          || (v.major == w.major && v.minor == w.minor && v.patch < w.patch))
  {
    LexTexts(CoreNumbers(v), CoreNumbers(w));
    var p, q := CoreNumbers(v), CoreNumbers(w);
    forall i | 0 <= i < 3
      ensures CompareIdentifiers(p[i], q[i]) == CompareNumbers(p[i].n, q[i].n)
    {
      DecimalRead(p[i].n);
      DecimalRead(q[i].n);
    }
    assert p[1..][1..] == p[2..] && q[1..][1..] == q[2..];
    assert p[2..][1..] == [] && q[2..][1..] == [];
    assert Lex(CompareIdentifiers, p[2..], q[2..]) == CompareIdentifiers(p[2], q[2]);
    assert Lex(CompareIdentifiers, p[1..], q[1..])
        == if CompareIdentifiers(p[1], q[1]) != 0 then CompareIdentifiers(p[1], q[1]) else CompareIdentifiers(p[2], q[2]);
  }

  // ----- printed versions are taken apart again -----

  lemma {:induction false} JoinChars(parts: seq<string>, ok: char -> bool)
    requires ok('.') && forall p, i :: p in parts && 0 <= i < |p| ==> ok(p[i])
    ensures forall i :: 0 <= i < |Join(parts, '.')| ==> ok(Join(parts, '.')[i])
    decreases |parts|
  {
    if |parts| > 1 {
      assert parts[0] in parts;
      JoinChars(parts[1..], ok);
    } else if |parts| == 1 {
      assert parts[0] in parts;
    }
  }

  predicate NumericOrDot(c: char) { IsDigit(c) || c == '.' }
  predicate IdentifierOrDot(c: char) { IsIdentifierChar(c) || c == '.' }

  lemma {:induction false} CoreShape(v: Version)
    ensures CoreText(v) != "" && IsDigit(CoreText(v)[0])
    ensures forall i :: 0 <= i < |CoreText(v)| ==> NumericOrDot(CoreText(v)[i])
    ensures Split(CoreText(v), '.') == Texts(CoreNumbers(v))
  {
    var parts := [Decimal(v.major), Decimal(v.minor), Decimal(v.patch)];
    DecimalRead(v.major);
    DecimalRead(v.minor);
    DecimalRead(v.patch);
    forall p, i | p in parts && 0 <= i < |p|
      ensures NumericOrDot(p[i]) && p[i] != '.'
    {
      assert IsDigit(p[i]);
    }
    JoinChars(parts, NumericOrDot);
    SplitJoin(parts, '.');
    assert CoreText(v)[0] == parts[0][0];
    var ids := CoreNumbers(v);
    assert ids[1..][1..] == ids[2..] && ids[2..][1..] == [];
    assert Texts(ids[2..]) == [Decimal(v.patch)];
    assert Texts(ids[1..]) == [Decimal(v.minor)] + Texts(ids[2..]);
    assert Texts(ids) == parts;
  }

  lemma {:induction false} TextsShape(ids: seq<Identifier>)
    requires forall i :: 0 <= i < |ids| ==> ValidIdentifier(ids[i])
    ensures forall t, i :: t in Texts(ids) && 0 <= i < |t| ==> IsIdentifierChar(t[i])
    ensures forall t :: t in Texts(ids) ==> t != ""
  {
    if ids != [] {
      TextsShape(ids[1..]);
      if ids[0].Number? {
        DecimalRead(ids[0].n);
      }
    }
  }

  lemma {:induction false} PreShape(v: Version)
    requires ValidVersion(v) && v.pre != []
    ensures var p := Join(Texts(v.pre), '.');
      && p != "" && (forall i :: 0 <= i < |p| ==> IdentifierOrDot(p[i]))
      && Split(p, '.') == Texts(v.pre)
  {
    TextsShape(v.pre);
    var parts := Texts(v.pre);
    JoinChars(parts, IdentifierOrDot);
    SplitJoin(parts, '.');
    assert parts[0] in parts;
  }

  lemma {:induction false} TrimmedAlready(s: string)
    requires s != "" && !IsSpace(s[0]) && !IsSpace(s[|s| - 1])
    ensures TrimEnd(TrimStart(s)) == s
  {
  }

  predicate IsTag(tag: string) { tag == "" || tag == "v" || tag == "V" }

  /** Whatever the leading `v` and the build metadata, comparison sees the core and the prerelease. */
  lemma {:induction false} NormalizedPrint(tag: string, v: Version)
    requires IsTag(tag) && ValidVersion(v)
    ensures Normalize(tag + Print(v)) == CoreText(v) + PreText(v)
  {
    hide CoreText, BuildText, Cut, StripV, TrimStart, TrimEnd;
    CoreShape(v);
    if v.pre != [] {
      PreShape(v);
    }
    var body := CoreText(v) + PreText(v);
    assert tag + Print(v) == tag + (body + BuildText(v));
    NormalizedBody(tag, body, v);
  }

  lemma {:induction false} NormalizedBody(tag: string, body: string, v: Version)
    requires IsTag(tag) && ValidVersion(v) && body != "" && IsDigit(body[0])
    requires forall i :: 0 <= i < |body| ==> IdentifierOrDot(body[i])
    ensures Normalize(tag + (body + BuildText(v))) == body
  {
    hide CoreText, PreText, TrimStart, TrimEnd, Cut;
    var text := tag + (body + BuildText(v));
    LastChar(tag, v, body, text);
    assert text[0] == if tag == "" then body[0] else tag[0];
    TrimmedAlready(text);
    assert StripV(text) == body + BuildText(v);
    CutBuild(body, v);
  }

  lemma {:induction false} CutBuild(body: string, v: Version)
    requires forall i :: 0 <= i < |body| ==> IdentifierOrDot(body[i])
    ensures Cut(body + BuildText(v), '+').0 == body
  {
    assert '+' !in body;
    if v.build.None? {
      assert body + BuildText(v) == body;
      CutNone(body, '+');
    } else {
      assert body + BuildText(v) == body + ['+'] + v.build.value;
      CutAt(body, '+', v.build.value);
    }
  }

  lemma {:induction false} LastChar(tag: string, v: Version, body: string, text: string)
    requires ValidVersion(v) && body != "" && text == tag + (body + BuildText(v))
    requires forall i :: 0 <= i < |body| ==> IdentifierOrDot(body[i])
    ensures text != "" && !IsSpace(text[|text| - 1])
  {
    if v.build.None? {
      assert text[|text| - 1] == body[|body| - 1];
      assert IdentifierOrDot(body[|body| - 1]);
    } else {
      var b := v.build.value;
      assert text[|text| - 1] == b[|b| - 1];
    }
  }

  lemma {:induction false} SplitPrint(v: Version)
    requires ValidVersion(v)
    ensures SplitPrerelease(CoreText(v) + PreText(v))
         == (CoreText(v), if v.pre == [] then None else Some(Join(Texts(v.pre), '.')))
  {
    CoreShape(v);
    assert '-' !in CoreText(v);
    if v.pre == [] {
      assert CoreText(v) + PreText(v) == CoreText(v);
      CutNone(CoreText(v), '-');
    } else {
      assert CoreText(v) + PreText(v) == CoreText(v) + ['-'] + Join(Texts(v.pre), '.');
      CutAt(CoreText(v), '-', Join(Texts(v.pre), '.'));
    }
  }

  /** On the text of valid versions, with or without a leading `v` and with any build metadata,
      the comparison is exactly semantic-version precedence. */
  lemma {:induction false} ComparesByPrecedence(tag: string, v: Version, tag': string, w: Version)
    requires IsTag(tag) && IsTag(tag') && ValidVersion(v) && ValidVersion(w)
    ensures var c := CompareVersions(tag + Print(v), tag' + Print(w));
      && (c < 0 <==> Precedes(v, w))
      && (c == 0 <==> SameCore(v, w) && v.pre == w.pre)
      && (c > 0 <==> Precedes(w, v))
  {
    ComparesBelow(tag, v, tag', w);
    ComparesBelow(tag', w, tag, v);
    VersionsPreorder();
  }

  lemma {:induction false} ComparesBelow(tag: string, v: Version, tag': string, w: Version)
    requires IsTag(tag) && IsTag(tag') && ValidVersion(v) && ValidVersion(w)
    ensures var c := CompareVersions(tag + Print(v), tag' + Print(w));
      && (c < 0 <==> Precedes(v, w))
      && (c == 0 <==> SameCore(v, w) && v.pre == w.pre)
  {
    hide Normalize, SplitPrerelease, CompareSegmentLists, CoreText, PreText, Texts, Split, Join, DictionaryLess;
    NormalizedPrint(tag, v);
    NormalizedPrint(tag', w);
    SplitPrint(v);
    SplitPrint(w);
    CoreShape(v);
    CoreShape(w);
    CoresDecide(v, w);
    if v.pre != [] { PreShape(v); }
    if w.pre != [] { PreShape(w); }
    PrereleasesDecide(v.pre, w.pre);
  }
}
