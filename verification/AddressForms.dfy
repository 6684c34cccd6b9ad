/** The text forms of IPv6 addresses (section 2.2 of RFC 4291) and what the reader makes of them. */
module AddressForms {
  import opened Core
  import opened Ipv6Text

  /** Hexadecimal digits, in either case; at least one. */
  predicate IsNumber(s: string) {
    s != "" && forall i :: 0 <= i < |s| ==> '0' <= s[i] <= '9' || 'a' <= s[i] <= 'f' || 'A' <= s[i] <= 'F'
  }

  /** One to four hexadecimal digits. */
  predicate IsGroup(s: string) { |s| <= 4 && IsNumber(s) }

  datatype Quad = Quad(a: nat, b: nat, c: nat, d: nat)

  predicate IsQuad(q: Quad) { q.a < 256 && q.b < 256 && q.c < 256 && q.d < 256 }

  /** A text form: the groups before `::`, whether there is a `::`, the groups after it, and the
      dotted tail of the mixed form.  Without `::` all groups are on the left. */
  datatype Form = Form(left: seq<string>, compressed: bool, right: seq<string>, quad: Option<Quad>)

  function Width(f: Form): nat { |f.left| + |f.right| + (if f.quad.Some? then 2 else 0) }

  /** Numbers of any length and number in place of the groups. */
  predicate IsShaped(f: Form) {
    && (forall i :: 0 <= i < |f.left| ==> IsNumber(f.left[i]))
    && (forall i :: 0 <= i < |f.right| ==> IsNumber(f.right[i]))
    && (f.quad.Some? ==> IsQuad(f.quad.value)) && (!f.compressed ==> f.right == [])
  }

  /** `::` stands for at least one group; the forms without it have all eight. */
  predicate IsForm(f: Form) {
    && IsShaped(f)
    && (forall i :: 0 <= i < |f.left| ==> IsGroup(f.left[i]))
    && (forall i :: 0 <= i < |f.right| ==> IsGroup(f.right[i]))
    && (if f.compressed then Width(f) < 8 else Width(f) == 8)
  }

  function PrintQuad(q: Quad): string {
    Join([Decimal(q.a), Decimal(q.b), Decimal(q.c), Decimal(q.d)], '.')
  }

  function Tail(f: Form): seq<string> { if f.quad.Some? then [PrintQuad(f.quad.value)] else [] }

  function Print(f: Form): string {
    if f.compressed then Join(f.left, ':') + "::" + Join(f.right + Tail(f), ':') else Join(f.left + Tail(f), ':')
  }

  // ----- what a form denotes -----

  function ValuesOf(groups: seq<string>): (r: seq<nat>)
    requires forall i :: 0 <= i < |groups| ==> IsNumber(groups[i])
    ensures |r| == |groups| && forall i :: 0 <= i < |r| ==> IsNumber(groups[i]) && r[i] == HexValue(groups[i])
  {
    if groups == [] then []
    else
      assert IsNumber(groups[|groups| - 1]);
      ValuesOf(groups[..|groups| - 1]) + [HexValue(groups[|groups| - 1])]
  }

  function ZeroGroups(n: nat): (r: seq<nat>)
    ensures |r| == n && forall i :: 0 <= i < n ==> r[i] == 0
  {
    if n == 0 then [] else [0] + ZeroGroups(n - 1)
  }

  /** The eight groups of a text of that shape. */
  function GroupValues(f: Form): (r: seq<nat>)
    requires IsShaped(f) && Width(f) <= 8
    ensures |r| == 8
  {
    ValuesOf(f.left) + ZeroGroups(8 - Width(f)) + ValuesOf(f.right) + TailValues(f)
  }

  /** The eight 16-bit groups of a form. */
  function Denoted(f: Form): (r: seq<nat>)
    requires IsForm(f)
    ensures |r| == 8
  {
    GroupValues(f)
  }

  function Value(groups: seq<nat>): nat {
    if groups == [] then 0 else Value(groups[..|groups| - 1]) * 65536 + groups[|groups| - 1]
  }

  predicate Small(groups: seq<nat>) { forall i :: 0 <= i < |groups| ==> groups[i] < 65536 }

  // ----- numbers read back -----

  lemma {:induction false} HexFits(s: string, k: nat)
    requires AllHex(s) && |s| <= k <= 4
    ensures HexValue(s) < 65536 && (k == 0 ==> HexValue(s) == 0) && (k == 1 ==> HexValue(s) < 16)
      && (k == 2 ==> HexValue(s) < 256) && (k == 3 ==> HexValue(s) < 4096)
  {
    if s != "" {
      HexFits(s[..|s| - 1], k - 1);
    }
  }

  lemma {:induction false} SpanAll(s: string)
    requires AllHex(s)
    ensures HexSpan(s) == |s|
  {
    if s != "" {
      SpanAll(s[1..]);
    }
  }

  /** A number of any length is read as a group exactly when it fits. */
  lemma {:induction false} NumberReads(s: string)
    requires IsNumber(s)
    ensures GroupOf(s) == if HexValue(s) < 65536 then Some(HexValue(s)) else None
  {
    hide HexValue, HexSpan;
    assert TrimStart(s) == s;
    SpanAll(s);
    assert s[..|s|] == s;
  }

  /** Of a field that begins with a number the rest is not looked at; one that begins with anything else
      is refused. */
  lemma {:induction false} NumberThenRead(number: string, rest: string)
    requires number == "" || IsNumber(number)
    requires rest != "" ==> !IsHex(rest[0]) && !(number == "0" && rest[0] in "xX")
    requires number == "" && rest != "" ==> !IsSpace(rest[0]) && rest[0] !in "+-"
    ensures GroupOf(number + rest) ==
      if number == "" || HexValue(number) >= 65536 then None else Some(HexValue(number))
  {
    hide HexValue;
    var s := number + rest;
    assert TrimStart(s) == s;
    SpanOf(number, rest);
    assert s[..|number|] == number;
  }

  lemma {:induction false} SpanOf(number: string, rest: string)
    requires AllHex(number) && (rest != "" ==> !IsHex(rest[0]))
    ensures HexSpan(number + rest) == |number|
  {
    if number != "" {
      assert (number + rest)[1..] == number[1..] + rest;
      SpanOf(number[1..], rest);
    } else {
      assert number + rest == rest;
    }
  }

  lemma {:induction false} GroupReads(s: string)
    requires IsGroup(s)
    ensures GroupOf(s) == Some(HexValue(s)) && HexValue(s) < 65536
  {
    hide GroupOf, HexValue;
    NumberReads(s);
    HexFits(s, 4);
  }

  lemma {:induction false} HexReads(n: nat, k: nat)
    requires 1 <= k && n < Pow16(k)
    ensures AllHex(Hex(n)) && 1 <= |Hex(n)| <= k && HexValue(Hex(n)) == n
    decreases k
  {
    if n >= 16 {
      assert k > 1;
      HexReads(n / 16, k - 1);
      assert Hex(n)[..|Hex(n)| - 1] == Hex(n / 16);
    }
  }

  function Pow16(k: nat): nat { if k == 0 then 1 else 16 * Pow16(k - 1) }

  lemma {:induction false} HexIsGroup(n: nat)
    requires n < 65536
    ensures IsGroup(Hex(n)) && HexValue(Hex(n)) == n
  {
    assert Pow16(4) == 16 * Pow16(3) == 256 * Pow16(2) == 65536;
    HexReads(n, 4);
  }

  lemma {:induction false} NoDot(s: string)
    requires IsNumeral(s)
    ensures '.' !in s && ':' !in s
  {
    forall c | c in s
      ensures IsDigit(c)
    {
    }
  }

  /** Four numerals between dots are read exactly when none is above 255. */
  lemma {:induction false} FourNumeralsRead(other: string -> Option<int>, a: string, b: string, c: string, d: string)
    requires IsNumeral(a) && IsNumeral(b) && IsNumeral(c) && IsNumeral(d)
    ensures var w, x, y, z := DecimalValue(a), DecimalValue(b), DecimalValue(c), DecimalValue(d);
      ParseIPv4(other, Join([a, b, c, d], '.')) ==
        if w <= 255 && x <= 255 && y <= 255 && z <= 255 then Some(((w * 256 + x) * 256 + y) * 256 + z) else None
  {
    hide DecimalValue, Join, Split;
    NoDot(a);
    NoDot(b);
    NoDot(c);
    NoDot(d);
    SplitJoin([a, b, c, d], '.');
  }

  lemma {:induction false} QuadReads(other: string -> Option<int>, q: Quad)
    requires IsQuad(q)
    ensures ParseIPv4(other, PrintQuad(q)) == Some(((q.a * 256 + q.b) * 256 + q.c) * 256 + q.d)
  {
    hide ParseIPv4, Decimal, DecimalValue, Join;
    DecimalRead(q.a);
    DecimalRead(q.b);
    DecimalRead(q.c);
    DecimalRead(q.d);
    FourNumeralsRead(other, Decimal(q.a), Decimal(q.b), Decimal(q.c), Decimal(q.d));
  }

  /** More parts or fewer are not read. */
  lemma {:induction false} OtherCountRefused(other: string -> Option<int>, parts: seq<string>)
    requires parts != [] && |parts| != 4 && forall p :: p in parts ==> '.' !in p
    ensures ParseIPv4(other, Join(parts, '.')) == None
  {
    SplitJoin(parts, '.');
  }

  // ----- folding -----

  lemma {:induction false} FoldGroups(texts: seq<string>, values: seq<nat>)
    requires |texts| == |values|
    requires forall i :: 0 <= i < |texts| ==> GroupOf(texts[i]) == Some(values[i])
    ensures Fold(texts) == Some(Value(values))
  {
    hide GroupOf;
    if texts != [] {
      FoldGroups(texts[..|texts| - 1], values[..|values| - 1]);
    }
  }

  // ----- lower case -----

  function LowerAll(parts: seq<string>): (r: seq<string>)
    ensures |r| == |parts| && forall i :: 0 <= i < |r| ==> r[i] == Lower(parts[i])
  {
    if parts == [] then [] else [Lower(parts[0])] + LowerAll(parts[1..])
  }

  function LowerForm(f: Form): Form { f.(left := LowerAll(f.left), right := LowerAll(f.right)) }

  lemma {:induction false} LowerAllConcat(a: seq<string>, b: seq<string>)
    ensures LowerAll(a + b) == LowerAll(a) + LowerAll(b)
  {
  }

  lemma {:induction false} LowerJoin(parts: seq<string>)
    ensures Lower(Join(parts, ':')) == Join(LowerAll(parts), ':')
    decreases |parts|
  {
    if |parts| > 1 {
      LowerJoin(parts[1..]);
      LowerConcat(parts[0] + ":", Join(parts[1..], ':'));
      LowerConcat(parts[0], ":");
      LowerSame(":");
      assert LowerAll(parts)[1..] == LowerAll(parts[1..]);
    }
  }

  lemma {:induction false} LowerGroup(s: string)
    requires AllHex(s)
    ensures AllHex(Lower(s)) && HexValue(Lower(s)) == HexValue(s)
  {
    if s != "" {
      assert IsHex(s[|s| - 1]);
      LowerGroup(s[..|s| - 1]);
    }
  }

  lemma {:induction false} QuadText(q: Quad)
    ensures forall i :: 0 <= i < |PrintQuad(q)| ==> IsDigit(PrintQuad(q)[i]) || PrintQuad(q)[i] == '.'
    ensures '.' in PrintQuad(q)
  {
    DecimalRead(q.a);
    DecimalRead(q.b);
    DecimalRead(q.c);
    DecimalRead(q.d);
    var a, b, c, d := Decimal(q.a), Decimal(q.b), Decimal(q.c), Decimal(q.d);
    assert Join([d], '.') == d;
    assert [c, d][1..] == [d] && Join([c, d], '.') == c + "." + d;
    assert [b, c, d][1..] == [c, d] && Join([b, c, d], '.') == b + "." + (c + "." + d);
    assert [a, b, c, d][1..] == [b, c, d] && PrintQuad(q) == a + "." + (b + "." + (c + "." + d));
    assert PrintQuad(q)[|a|] == '.';
  }

  lemma {:induction false} LowerTail(f: Form)
    ensures LowerAll(Tail(f)) == Tail(f) == Tail(LowerForm(f))
  {
    if f.quad.Some? {
      QuadText(f.quad.value);
      LowerSame(PrintQuad(f.quad.value));
    }
  }

  lemma {:induction false} LowerPrint(f: Form)
    ensures Lower(Print(f)) == Print(LowerForm(f))
  {
    hide Lower, Join, LowerAll, Tail;
    LowerTail(f);
    LowerAllConcat(f.left, Tail(f));
    LowerAllConcat(f.right, Tail(f));
    if f.compressed {
      var l, r := Join(f.left, ':'), Join(f.right + Tail(f), ':');
      LowerJoin(f.left);
      LowerJoin(f.right + Tail(f));
      LowerConcat(l + "::", r);
      LowerConcat(l, "::");
      LowerSame("::");
    } else {
      LowerJoin(f.left + Tail(f));
    }
  }

  lemma {:induction false} LowerShaped(f: Form)
    requires IsShaped(f)
    ensures IsShaped(LowerForm(f)) && Width(LowerForm(f)) == Width(f) && LowerForm(f).compressed == f.compressed
    ensures Width(f) <= 8 ==> GroupValues(LowerForm(f)) == GroupValues(f)
  {
    hide LowerAll, ValuesOf, IsNumber;
    LowerNumbers(f.left);
    LowerNumbers(f.right);
  }

  /** Case does not matter. */
  lemma {:induction false} LowerDenotes(f: Form)
    requires IsForm(f)
    ensures IsForm(LowerForm(f)) && Denoted(LowerForm(f)) == Denoted(f)
  {
    hide IsNumber, GroupValues;
    LowerShaped(f);
  }

  lemma {:induction false} LowerNumbers(groups: seq<string>)
    requires forall i :: 0 <= i < |groups| ==> IsNumber(groups[i])
    ensures forall i :: 0 <= i < |groups| ==> IsNumber(LowerAll(groups)[i])
    ensures ValuesOf(LowerAll(groups)) == ValuesOf(groups)
  {
    forall i | 0 <= i < |groups|
      ensures IsNumber(LowerAll(groups)[i]) && HexValue(LowerAll(groups)[i]) == HexValue(groups[i])
    {
      assert IsNumber(groups[i]);
      LowerGroup(groups[i]);
      LowerNumber(groups[i]);
    }
  }

  lemma {:induction false} LowerNumber(s: string)
    requires IsNumber(s)
    ensures IsNumber(Lower(s))
  {
    hide Lower;
    forall i | 0 <= i < |s|
      ensures '0' <= Lower(s)[i] <= '9' || 'a' <= Lower(s)[i] <= 'f' || 'A' <= Lower(s)[i] <= 'F'
    {
      LowerIndex(s, i);
    }
  }

  // ----- where the separators are -----

  /** Text between colons. */
  predicate IsField(s: string) { s != "" && ':' !in s }

  ghost predicate AreFields(parts: seq<string>) { forall p :: p in parts ==> IsField(p) }

  /** Text without `::` that neither starts nor ends with a colon. */
  ghost predicate Solid(s: string) {
    (s != "" ==> s[0] != ':' && s[|s| - 1] != ':') && forall k: nat :: !At(s, k, "::")
  }

  lemma {:induction false} AtColons(s: string, k: nat)
    ensures At(s, k, "::") <==> k + 2 <= |s| && s[k] == s[k + 1] == ':'
  {
    if k + 2 <= |s| {
      assert s[k..k + 2] == [s[k], s[k + 1]];
    }
  }

  lemma {:induction false} AtSuffix(pre: string, b: string, k: nat)
    requires k >= |pre|
    ensures At(pre + b, k, "::") == At(b, k - |pre|, "::")
  {
    AtColons(pre + b, k);
    AtColons(b, k - |pre|);
  }

  lemma {:induction false} JoinSolid(parts: seq<string>)
    requires AreFields(parts)
    ensures Solid(Join(parts, ':')) && (parts != [] ==> Join(parts, ':') != "")
    decreases |parts|
  {
    if parts != [] {
      assert IsField(parts[0]);
    }
    if |parts| == 1 {
      forall k: nat
        ensures !At(parts[0], k, "::")
      {
        AtColons(parts[0], k);
      }
    } else if |parts| > 1 {
      var rest := Join(parts[1..], ':');
      JoinSolid(parts[1..]);
      forall k: nat
        ensures !At(parts[0] + ":" + rest, k, "::")
      {
        NoDoubleAcross(parts[0], rest, k);
      }
    }
  }

  lemma {:induction false} NoDoubleAcross(field: string, rest: string, k: nat)
    requires IsField(field) && Solid(rest) && rest != ""
    ensures !At(field + ":" + rest, k, "::")
  {
    AtColons(field + ":" + rest, k);
    if k > |field| {
      AtSuffix(field + ":", rest, k);
    }
  }

  /** The only `::` in a text that is cut by one into solid parts. */
  lemma {:induction false} FirstDouble(a: string, b: string)
    requires Solid(a)
    ensures IndexOf(a + "::" + b, "::", 0) == |a|
  {
    var s := a + "::" + b;
    forall k: nat | k < |a|
      ensures !At(s, k, "::")
    {
      AtColons(s, k);
      AtColons(a, k);
    }
    AtColons(s, |a|);
    IndexOfSkip(s, "::", 0, |a|);
  }

  lemma {:induction false} NoOtherDouble(a: string, b: string)
    requires Solid(b)
    ensures IndexOf(a + "::" + b, "::", |a| + 2) == -1
  {
    hide IndexOf;
    var s := a + "::" + b;
    forall k: nat | k >= |a| + 2
      ensures !At(s, k, "::")
    {
      AtSuffix(a + "::", b, k);
    }
  }

  lemma {:induction false} FieldsJoin(parts: seq<string>)
    requires AreFields(parts)
    ensures Fields(Join(parts, ':')) == parts && NonEmpty(parts) == parts
    ensures parts != [] ==> Split(Join(parts, ':'), ':') == parts
    decreases |parts|
  {
    NonEmptyAll(parts);
    JoinSolid(parts);
    if parts != [] {
      SplitJoin(parts, ':');
    }
  }

  lemma {:induction false} NonEmptyAll(parts: seq<string>)
    requires AreFields(parts)
    ensures NonEmpty(parts) == parts
  {
    if parts != [] {
      assert IsField(parts[0]);
      NonEmptyAll(parts[1..]);
    }
  }

  // ----- which characters occur -----

  lemma {:induction false} JoinLacks(parts: seq<string>, c: char)
    requires c != ':' && forall p :: p in parts ==> c !in p
    ensures c !in Join(parts, ':')
    decreases |parts|
  {
    if |parts| > 1 {
      JoinLacks(parts[1..], c);
    }
  }

  lemma {:induction false} JoinHas(parts: seq<string>, last: string, c: char)
    requires c in last
    ensures c in Join(parts + [last], ':')
    decreases |parts|
  {
    if parts != [] {
      JoinHas(parts[1..], last, c);
      assert (parts + [last])[1..] == parts[1..] + [last];
    }
  }

  // ----- the groups of a printed form -----

  lemma {:induction false} NumberIsField(s: string)
    requires IsNumber(s)
    ensures IsField(s) && '.' !in s && '%' !in s && '[' !in s
  {
    forall c | c in s
      ensures IsHex(c)
    {
    }
  }

  lemma {:induction false} FormFields(f: Form)
    requires IsShaped(f)
    ensures AreFields(f.left) && AreFields(f.right + Tail(f)) && AreFields(f.left + Tail(f))
    ensures forall p :: p in f.left || p in f.right ==> '.' !in p
  {
    forall p | p in f.left || p in f.right
      ensures IsField(p) && '.' !in p
    {
      NumberIsField(p);
    }
    if f.quad.Some? {
      QuadText(f.quad.value);
    }
  }

  /** A dot occurs in a printed form exactly when it has a dotted tail. */
  lemma {:induction false} DotInPrint(f: Form)
    requires IsShaped(f)
    ensures '.' in Print(f) <==> f.quad.Some?
  {
    hide Join, PrintQuad;
    FormFields(f);
    if f.quad.Some? {
      QuadText(f.quad.value);
      JoinHas(f.left, PrintQuad(f.quad.value), '.');
      JoinHas(f.right, PrintQuad(f.quad.value), '.');
    } else {
      JoinLacks(f.left, '.');
      JoinLacks(f.left + Tail(f), '.');
      JoinLacks(f.right + Tail(f), '.');
    }
  }

  function TailText(f: Form): string { if f.quad.Some? then PrintQuad(f.quad.value) else "" }

  lemma {:induction false} CompressedGroups(other: string -> Option<int>, f: Form)
    requires IsShaped(f) && f.compressed
    ensures GroupTexts(other, Print(f)) ==
      if Width(f) > 8 then None else Some(f.left + Zeros(8 - Width(f)) + f.right + TailGroups(other, TailText(f)))
  {
    hide Join, PrintQuad, Fields, Expand, IndexOf, Solid, AreFields, IsNumber, Tail, TailText;
    var a, parts := Join(f.left, ':'), f.right + Tail(f);
    var b := Join(parts, ':');
    var s := Print(f);
    FormFields(f);
    DotInPrint(f);
    JoinSolid(f.left);
    JoinSolid(parts);
    FirstDouble(a, b);
    NoOtherDouble(a, b);
    assert s[..|a|] == a && s[|a| + 2..] == b;
    FieldsJoin(f.left);
    FieldsJoin(parts);
    ExpandForm(other, f);
  }

  lemma {:induction false} ExpandForm(other: string -> Option<int>, f: Form)
    requires AreFields(f.left) && AreFields(f.right + Tail(f))
    ensures Expand(other, f.quad.Some?, f.left, f.right + Tail(f)) ==
      if Width(f) > 8 then None else Some(f.left + Zeros(8 - Width(f)) + f.right + TailGroups(other, TailText(f)))
  {
    hide PrintQuad, Zeros, TailGroups, NonEmpty, AreFields;
    NonEmptyAll(f.left);
    RightFields(f);
  }

  lemma {:induction false} RightFields(f: Form)
    requires AreFields(f.right + Tail(f))
    ensures NonEmpty(f.right) == f.right
    ensures f.quad.Some? ==> TailText(f) != "" && Tail(f) == [TailText(f)] && (f.right + Tail(f))[..|f.right|] == f.right
    ensures f.quad.None? ==> f.right + Tail(f) == f.right
  {
    assert forall p :: p in f.right ==> p in f.right + Tail(f);
    NonEmptyAll(f.right);
    if f.quad.Some? {
      QuadText(f.quad.value);
    }
  }

  lemma {:induction false} FullGroups(other: string -> Option<int>, f: Form)
    requires IsShaped(f) && !f.compressed && Width(f) > 0
    ensures GroupTexts(other, Print(f)) == if Width(f) != 8 then None else Some(f.left + TailGroups(other, TailText(f)))
  {
    hide Join, PrintQuad, Fields, NonEmpty, Zeros, TailGroups, IndexOf, AreFields, IsNumber;
    FormFields(f);
    DotInPrint(f);
    JoinSolid(f.left + Tail(f));
    FieldsJoin(f.left + Tail(f));
    if f.quad.Some? {
      QuadText(f.quad.value);
      assert (f.left + Tail(f))[..|f.left|] == f.left;
    } else {
      assert f.left + Tail(f) == f.left;
    }
  }

  /** Hexadecimal digits, dots and colons. */
  predicate IsPlain(s: string) { forall i :: 0 <= i < |s| ==> IsHex(s[i]) || s[i] == ':' || s[i] == '.' }

  lemma {:induction false} JoinPlain(parts: seq<string>)
    requires forall p :: p in parts ==> IsPlain(p)
    ensures IsPlain(Join(parts, ':'))
    decreases |parts|
  {
    if parts != [] {
      assert IsPlain(parts[0]);
    }
    if |parts| > 1 {
      JoinPlain(parts[1..]);
    }
  }

  lemma {:induction false} PrintIsPlain(f: Form)
    requires IsShaped(f)
    ensures IsPlain(Print(f)) && (f.compressed || Width(f) > 2 ==> ':' in Print(f))
  {
    forall p | p in f.left || p in f.right || p in Tail(f)
      ensures IsPlain(p)
    {
      if p in Tail(f) {
        QuadText(f.quad.value);
      } else {
        assert IsNumber(p);
      }
    }
    hide IsGroup, PrintQuad;
    JoinPlain(f.left);
    JoinPlain(f.left + Tail(f));
    JoinPlain(f.right + Tail(f));
    if f.compressed {
      assert Print(f)[|Join(f.left, ':')|] == ':';
    } else if Width(f) > 2 {
      assert |f.left + Tail(f)| > 1;
      assert Print(f)[|(f.left + Tail(f))[0]|] == ':';
    }
  }

  // ----- what is read is what is denoted -----

  ghost predicate Reads(texts: seq<string>, values: seq<nat>) {
    && |texts| == |values|
    && forall i :: 0 <= i < |texts| ==> GroupOf(texts[i]) == Some(values[i]) && values[i] < 65536
  }

  lemma {:induction false} ReadsConcat(s: seq<string>, v: seq<nat>, t: seq<string>, w: seq<nat>)
    requires Reads(s, v) && Reads(t, w)
    ensures Reads(s + t, v + w)
  {
    hide GroupOf;
  }

  lemma {:induction false} NumbersRead(groups: seq<string>)
    requires (forall i :: 0 <= i < |groups| ==> IsNumber(groups[i])) && Small(ValuesOf(groups))
    ensures Reads(groups, ValuesOf(groups))
  {
    forall i | 0 <= i < |groups|
      ensures GroupOf(groups[i]) == Some(ValuesOf(groups)[i]) && ValuesOf(groups)[i] < 65536
    {
      assert ValuesOf(groups)[i] < 65536;
      NumberReads(groups[i]);
    }
  }

  lemma {:induction false} ZerosRead(n: nat)
    ensures Reads(Zeros(n), ZeroGroups(n))
  {
    GroupReads("0");
    assert HexValue("0") == 0;
  }

  function TailValues(f: Form): seq<nat> {
    match f.quad
    case None => []
    case Some(q) => [q.a * 256 + q.b, q.c * 256 + q.d]
  }

  lemma {:induction false} TailReads(other: string -> Option<int>, f: Form)
    requires f.quad.Some? ==> IsQuad(f.quad.value)
    ensures Reads(TailGroups(other, TailText(f)), TailValues(f))
  {
    hide PrintQuad, Hex, HexValue, ParseIPv4, ParseInt16;
    if f.quad.Some? {
      var q := f.quad.value;
      QuadText(q);
      QuadReads(other, q);
      HexIsGroup(q.a * 256 + q.b);
      HexIsGroup(q.c * 256 + q.d);
      GroupReads(Hex(q.a * 256 + q.b));
      GroupReads(Hex(q.c * 256 + q.d));
    }
  }

  lemma {:induction false} FormReads(other: string -> Option<int>, f: Form)
    requires IsShaped(f) && Width(f) <= 8 && Small(GroupValues(f))
    ensures Reads(f.left + Zeros(8 - Width(f)) + f.right + TailGroups(other, TailText(f)), GroupValues(f))
  {
    hide Reads, IsNumber, ValuesOf, TailGroups, TailText, TailValues, Zeros, ZeroGroups, Small;
    SmallParts(f);
    NumbersRead(f.left);
    NumbersRead(f.right);
    ZerosRead(8 - Width(f));
    TailReads(other, f);
    ReadsFour(f.left, ValuesOf(f.left), Zeros(8 - Width(f)), ZeroGroups(8 - Width(f)),
              f.right, ValuesOf(f.right), TailGroups(other, TailText(f)), TailValues(f));
  }

  lemma {:induction false} SmallParts(f: Form)
    requires IsShaped(f) && Width(f) <= 8 && Small(GroupValues(f))
    ensures Small(ValuesOf(f.left)) && Small(ValuesOf(f.right))
  {
    hide ValuesOf, HexValue, IsNumber, ZeroGroups;
    var g, before := GroupValues(f), |f.left| + (8 - Width(f));
    assert forall i :: 0 <= i < |f.left| ==> ValuesOf(f.left)[i] == g[i];
    assert forall i :: 0 <= i < |f.right| ==> ValuesOf(f.right)[i] == g[before + i];
  }

  /** A group that does not fit makes the fold fail. */
  lemma {:induction false} FormFails(other: string -> Option<int>, f: Form)
    requires IsShaped(f) && Width(f) <= 8 && !Small(GroupValues(f))
    ensures Fold(f.left + Zeros(8 - Width(f)) + f.right + TailGroups(other, TailText(f))) == None
  {
    hide Fold, HexValue, GroupOf, ValuesOf, Zeros, ZeroGroups, TailGroups, IsNumber;
    var g, zeros := GroupValues(f), Zeros(8 - Width(f));
    var texts := f.left + zeros + f.right + TailGroups(other, TailText(f));
    var i :| 0 <= i < |g| && g[i] >= 65536;
    if i < |f.left| {
      assert texts[i] == f.left[i] && g[i] == ValuesOf(f.left)[i];
      NumberReads(f.left[i]);
    } else {
      var before := |f.left| + |zeros|;
      assert i >= before;
      var j := i - before;
      assert j < |f.right| by { assert f.quad.Some? ==> IsQuad(f.quad.value); }
      assert texts[i] == f.right[j] && g[i] == ValuesOf(f.right)[j];
      NumberReads(f.right[j]);
    }
    FoldStops(texts, i);
  }

  lemma {:induction false} ReadsFour(a: seq<string>, v: seq<nat>, b: seq<string>, w: seq<nat>,
      c: seq<string>, x: seq<nat>, d: seq<string>, y: seq<nat>)
    requires Reads(a, v) && Reads(b, w) && Reads(c, x) && Reads(d, y)
    ensures Reads(a + b + c + d, v + w + x + y)
  {
    hide Reads;
    ReadsConcat(a, v, b, w);
    ReadsConcat(a + b, v + w, c, x);
    ReadsConcat(a + b + c, v + w + x, d, y);
  }

  /** The number of groups is right. */
  predicate HasWidth(f: Form) { if f.compressed then Width(f) <= 8 else Width(f) == 8 }

  lemma {:induction false} PrintedGroups(other: string -> Option<int>, f: Form)
    requires IsShaped(f) && (f.compressed || Width(f) > 0)
    ensures GroupTexts(other, Print(f)) ==
      if !HasWidth(f) then None else Some(f.left + Zeros(8 - Width(f)) + f.right + TailGroups(other, TailText(f)))
  {
    hide Print, GroupTexts, IsNumber, TailGroups, TailText;
    if f.compressed {
      CompressedGroups(other, f);
    } else {
      FullGroups(other, f);
      assert f.left + Zeros(0) + f.right == f.left;
    }
  }

  lemma {:induction false} LowerPlain(s: string)
    requires IsPlain(s) && ':' in s
    ensures Unbracketed(s) == s == Unbracketed("[" + s + "]") && '%' !in Lower(s) && ':' in Lower(s)
  {
    hide Trim, Lower;
    assert !IsSpace(s[0]) && !IsSpace(s[|s| - 1]) && s[0] != '[';
    TrimNone(s);
    TrimNone("[" + s + "]");
    var k :| 0 <= k < |s| && s[k] == ':';
    LowerIndex(s, k);
    forall i | 0 <= i < |s|
      ensures Lower(s)[i] != '%'
    {
      LowerIndex(s, i);
    }
  }

  /** Texts of this shape are read exactly when they have eight groups, or eight at most around a `::`,
      and every group fits in 16 bits; and then as the number whose groups they list. */
  lemma {:induction false} ReadsExactly(other: string -> Option<int>, f: Form)
    requires IsShaped(f)
    ensures ParseSpec(other, Print(f)) ==
      if HasWidth(f) && Small(GroupValues(f)) then Some(Value(GroupValues(f))) else None
    ensures f.compressed || Width(f) > 2 ==> ParseSpec(other, "[" + Print(f) + "]") == ParseSpec(other, Print(f))
  {
    hide Print, IsShaped, GroupValues, Unbracketed, Lower, GroupTexts, Fold, Value, LowerForm, Zeros, TailGroups, TailText, Small;
    PrintIsPlain(f);
    LowerPrint(f);
    LowerShaped(f);
    var low := LowerForm(f);
    if ':' in Print(f) {
      LowerPlain(Print(f));
      ColonMeansWidth(f);
      PrintedGroups(other, low);
      if HasWidth(low) {
        if Small(GroupValues(low)) {
          FormReads(other, low);
          FoldGroups(low.left + Zeros(8 - Width(low)) + low.right + TailGroups(other, TailText(low)), GroupValues(low));
        } else {
          FormFails(other, low);
        }
      }
    } else {
      NoColonRefused(other, Print(f));
    }
  }

  lemma {:induction false} ColonMeansWidth(f: Form)
    requires ':' in Print(f)
    ensures f.compressed || Width(f) > 0
  {
  }

  /** Text without a colon, or with a zone, is no address. */
  lemma {:induction false} NoColonRefused(other: string -> Option<int>, ip: string)
    ensures ':' !in ip ==> ParseSpec(other, ip) == None
    ensures '%' in ip ==> ParseSpec(other, ip) == None
  {
    hide GroupTexts, Trim, Lower;
    UnbracketedKeeps(ip, ':');
    UnbracketedKeeps(ip, '%');
    LowerHas(Unbracketed(ip), ':');
    LowerHas(Unbracketed(ip), '%');
  }

  lemma {:induction false} UnbracketedKeeps(ip: string, c: char)
    requires !IsSpace(c) && c != '[' && c != ']'
    ensures c in Unbracketed(ip) <==> c in ip
  {
    hide Trim;
    var before, after := TrimExactly(ip);
    var s := Trim(ip);
    assert c in ip <==> c in s;
    if s != "" && s[0] == '[' && s[|s| - 1] == ']' && |s| >= 2 {
      assert s == [s[0]] + s[1..|s| - 1] + [s[|s| - 1]];
    }
  }

  lemma {:induction false} LowerHas(s: string, c: char)
    requires c == ':' || c == '%'
    ensures c in Lower(s) <==> c in s
  {
    hide Lower;
    if i :| 0 <= i < |s| && s[i] == c {
      LowerIndex(s, i);
    }
    if i :| 0 <= i < |s| && Lower(s)[i] == c {
      LowerIndex(s, i);
    }
  }

  /** A dotted tail that is no dotted quad stands for zero: such a text is read as the address zero. */
  lemma {:induction false} UnreadableTailIsZero(other: string -> Option<int>, tail: string)
    requires IsPlain(tail) && ':' !in tail && '.' in tail && ParseIPv4(other, Lower(tail)) == None
    ensures ParseSpec(other, "::" + tail) == Some(0)
  {
    var s, low := "::" + tail, Lower(tail);
    LowerTailText(tail);
    assert s[0] == ':';
    hide Unbracketed, Lower, GroupTexts, ParseIPv4, Fold;
    LowerPlain(s);
    BareTail(other, low);
    ZeroTexts(8);
  }

  lemma {:induction false} LowerTailText(tail: string)
    requires ':' !in tail && '.' in tail
    ensures Lower("::" + tail) == "::" + Lower(tail) && ':' !in Lower(tail) && '.' in Lower(tail)
  {
    hide Lower;
    LowerConcat("::", tail);
    LowerSame("::");
    forall i | 0 <= i < |tail|
      ensures Lower(tail)[i] != ':' && (tail[i] == '.' ==> Lower(tail)[i] == '.')
    {
      LowerIndex(tail, i);
    }
  }

  lemma {:induction false} GapGroups(other: string -> Option<int>, lower: string, k: nat)
    requires k + 2 <= |lower| && IndexOf(lower, "::", 0) == k && IndexOf(lower, "::", k + 2) == -1
    ensures GroupTexts(other, lower) == Expand(other, '.' in lower, Fields(lower[..k]), Fields(lower[k + 2..]))
  {
    hide IndexOf, Expand, Fields, Split;
  }

  lemma {:induction false} BareTail(other: string -> Option<int>, tail: string)
    requires ':' !in tail && '.' in tail && ParseIPv4(other, tail) == None
    ensures GroupTexts(other, "::" + tail) == Some(Zeros(8))
  {
    TailSolid(tail);
    hide GroupTexts, Expand, ParseIPv4, IndexOf, At, Split, Solid;
    var s := "::" + tail;
    assert "" + "::" + tail == s && s[..0] == "" && s[2..] == tail;
    FirstDouble("", tail);
    NoOtherDouble("", tail);
    GapGroups(other, s, 0);
    SplitNone(tail, ':');
    TailExpands(other, tail);
  }

  lemma {:induction false} TailSolid(tail: string)
    requires ':' !in tail
    ensures Solid(tail) && Solid("")
  {
    forall k: nat
      ensures !At(tail, k, "::")
    {
      AtColons(tail, k);
    }
  }

  lemma {:induction false} SplitNone(s: string, sep: char)
    requires sep !in s
    ensures Split(s, sep) == [s]
  {
    CutNone(s, sep);
  }

  lemma {:induction false} TailExpands(other: string -> Option<int>, tail: string)
    requires tail != "" && ParseIPv4(other, tail) == None
    ensures Expand(other, true, [], [tail]) == Some(Zeros(8))
  {
    hide ParseIPv4;
    assert [tail][..0] == [];
    assert Hex(0) == "0";
    assert TailGroups(other, tail) == ["0", "0"];
    assert [] + Zeros(6) + [] + ["0", "0"] == Zeros(8) by {
      assert forall i :: 0 <= i < 8 ==> Zeros(8)[i] == "0";
    }
  }

  lemma {:induction false} ZeroTexts(n: nat)
    ensures Fold(Zeros(n)) == Some(0)
  {
    ZerosRead(n);
    FoldGroups(Zeros(n), ZeroGroups(n));
    ZerosWorth(n);
  }

  lemma {:induction false} ZerosWorth(n: nat)
    ensures Value(ZeroGroups(n)) == 0
  {
    if n > 0 {
      assert ZeroGroups(n)[..n - 1] == ZeroGroups(n - 1);
      ZerosWorth(n - 1);
    }
  }

  lemma {:induction false} SecondGap(other: string -> Option<int>, lower: string, i: nat, j: nat)
    requires At(lower, i, "::") && At(lower, j, "::") && i + 2 <= j
    ensures GroupTexts(other, lower) == None
  {
    IndexOfLeast(lower, "::", 0, i);
    IndexOfLeast(lower, "::", IndexOf(lower, "::", 0) + 2, j);
    hide IndexOf, At, Expand, Split;
  }

  lemma {:induction false} LowerColons(s: string, k: nat)
    requires At(s, k, "::")
    ensures At(Lower(s), k, "::") && ':' in s
  {
    hide Lower, At;
    AtColons(s, k);
    LowerIndex(s, k);
    LowerIndex(s, k + 1);
    AtColons(Lower(s), k);
  }

  /** Text with `::` in two places is no address. */
  lemma {:induction false} TwoGapsRefused(other: string -> Option<int>, s: string, i: nat, j: nat)
    requires IsPlain(s) && At(s, i, "::") && At(s, j, "::") && i + 2 <= j
    ensures ParseSpec(other, s) == None
  {
    hide Unbracketed, Lower, At, GroupTexts;
    LowerColons(s, i);
    LowerColons(s, j);
    LowerPlain(s);
    SecondGap(other, Lower(s), i, j);
  }

  /** Every text form of every address, in either case, with or without brackets around it, is read
      as the address it denotes: eight groups of 16 bits, most significant first. */
  lemma {:induction false} ReadsEveryForm(other: string -> Option<int>, f: Form)
    requires IsForm(f)
    ensures ParseSpec(other, Print(f)) == ParseSpec(other, "[" + Print(f) + "]") == Some(Value(Denoted(f)))
    ensures Small(Denoted(f)) && Value(Denoted(f)) < 0x1_0000_0000_0000_0000_0000_0000_0000_0000
  {
    FormIsSmall(f);
    hide Print, ParseSpec, Value, GroupValues;
    ReadsExactly(other, f);
    ValueBelow(Denoted(f));
    assert Pow65536(8) == 0x1_0000_0000_0000_0000_0000_0000_0000_0000 by { Pow65536Of8(); }
  }

  lemma {:induction false} FormIsSmall(f: Form)
    requires IsForm(f)
    ensures Small(Denoted(f))
  {
    forall i | 0 <= i < |f.left|
      ensures ValuesOf(f.left)[i] < 65536
    {
      HexFits(f.left[i], 4);
    }
    forall i | 0 <= i < |f.right|
      ensures ValuesOf(f.right)[i] < 65536
    {
      HexFits(f.right[i], 4);
    }
  }

  // ----- values and groups -----

  function Pow65536(n: nat): nat { if n == 0 then 1 else 65536 * Pow65536(n - 1) }

  lemma {:induction false} Pow65536Of8()
    ensures Pow65536(8) == 0x1_0000_0000_0000_0000_0000_0000_0000_0000
  {
    assert Pow65536(2) == 0x1_0000_0000;
    assert Pow65536(4) == 0x1_0000_0000_0000_0000;
    assert Pow65536(6) == 0x1_0000_0000_0000_0000_0000_0000;
  }

  lemma {:induction false} ValueBelow(groups: seq<nat>)
    requires Small(groups)
    ensures Value(groups) < Pow65536(|groups|)
  {
    if groups != [] {
      ValueBelow(groups[..|groups| - 1]);
    }
  }

  lemma {:induction false} ValueInjective(g: seq<nat>, h: seq<nat>)
    requires Small(g) && Small(h) && |g| == |h| && Value(g) == Value(h)
    ensures g == h
  {
    if g != [] {
      ValueInjective(g[..|g| - 1], h[..|h| - 1]);
      assert g == g[..|g| - 1] + [g[|g| - 1]];
      assert h == h[..|h| - 1] + [h[|h| - 1]];
    }
  }

  /** Two texts are read as the same number exactly when they denote the same eight groups. */
  lemma {:induction false} SameReadingSameAddress(other: string -> Option<int>, f: Form, g: Form)
    requires IsForm(f) && IsForm(g)
    ensures ParseSpec(other, Print(f)) == ParseSpec(other, Print(g)) <==> Denoted(f) == Denoted(g)
  {
    hide ParseSpec, Print, IsForm, Denoted;
    ReadsEveryForm(other, f);
    ReadsEveryForm(other, g);
    if ParseSpec(other, Print(f)) == ParseSpec(other, Print(g)) {
      ValueInjective(Denoted(f), Denoted(g));
    }
  }

  // ----- the reader itself -----

  /** `r` is what a text denotes, if the text is one of the forms, with or without brackets. */
  ghost predicate IsReading(ip: string, r: Option<nat>) {
    forall f: Form :: IsForm(f) && (ip == Print(f) || ip == "[" + Print(f) + "]") ==> r == Some(Value(Denoted(f)))
  }

  lemma {:induction false} ReadingOfText(other: string -> Option<int>, ip: string)
    ensures IsReading(ip, ParseSpec(other, ip))
  {
    hide IsForm, Print, Denoted, Value, ParseSpec;
    forall f: Form | IsForm(f) && (ip == Print(f) || ip == "[" + Print(f) + "]")
      ensures ParseSpec(other, ip) == Some(Value(Denoted(f)))
    {
      ReadsEveryForm(other, f);
    }
  }

  method ParseIPv6ToBigInt(other: string -> Option<int>, ip: string) returns (r: Option<nat>)
    ensures r == ParseSpec(other, ip)
    ensures IsReading(ip, r)
  {
    ReadingOfText(other, ip);
    hide IsReading, Unbracketed, Lower, IndexOf, Fields, NonEmpty, Zeros, Split, TailGroups, Fold;
    var lower := Lower(Unbracketed(ip));
    if '%' in lower || ':' !in lower {
      return None;
    }
    var parts: seq<string>;
    var tail := "";
    var k := IndexOf(lower, "::", 0);
    if k != -1 {
      if IndexOf(lower, "::", k + 2) != -1 {
        return None;
      }
      var leftParts, rightParts := Fields(lower[..k]), Fields(lower[k + 2..]);
      if '.' in lower && rightParts != [] {
        tail := rightParts[|rightParts| - 1];
        rightParts := rightParts[..|rightParts| - 1];
      }
      var left, right := NonEmpty(leftParts), NonEmpty(rightParts);
      var total := |left| + |right| + (if tail == "" then 0 else 2);
      if total > 8 {
        return None;
      }
      parts := left + Zeros(8 - total) + right;
    } else {
      parts := Split(lower, ':');
      if '.' in lower {
        tail := parts[|parts| - 1];
        parts := parts[..|parts| - 1];
      }
      if |parts| + (if tail == "" then 0 else 2) != 8 {
        return None;
      }
    }
    parts := parts + TailGroups(other, tail);
    r := Ipv6Text.FoldGroups(parts);
  }
}
