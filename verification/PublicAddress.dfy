/** Which addresses count as public (`apps/scanner-asm/src/surface.probe.ts`, copied in
    `apps/asset-service/src/connectors/dns.egress.ts`): prefix tests by shifting, on IPv4 and IPv6
    texts. */
module PublicAddress {
  import opened Core
  import opened Ipv6Text
  import opened AddressForms

  // ----- the tests -----

  /** Both shifted right by all but the first `length` of `width` bits. */
  predicate InPrefix(addr: nat, prefix: nat, length: nat, width: nat)
    requires length <= width
  {
    addr / Pow2(width - length) == prefix / Pow2(width - length)
  }

  /** The blocks that are not public, in the order of the tests. */
  predicate ReservedIPv4(n: nat) {
    || InPrefix(n, 0x0a000000, 8, 32) || InPrefix(n, 0xac100000, 12, 32) || InPrefix(n, 0xc0a80000, 16, 32)
    || InPrefix(n, 0x7f000000, 8, 32) || InPrefix(n, 0xa9fe0000, 16, 32) || InPrefix(n, 0x64400000, 10, 32)
    || InPrefix(n, 0x00000000, 8, 32) || InPrefix(n, 0xe0000000, 4, 32) || InPrefix(n, 0xf0000000, 4, 32)
    || InPrefix(n, 0xc0000200, 24, 32) || InPrefix(n, 0xc6336400, 24, 32) || InPrefix(n, 0xcb007100, 24, 32)
    || InPrefix(n, 0xc0000000, 24, 32) || InPrefix(n, 0xc0586300, 24, 32)
  }

  /** `None` is the exception for a text that cannot be read. */
  function IsPublicIPv4(other: string -> Option<int>, ip: string): Option<bool> {
    var n := ParseIPv4(other, ip);
    if n == None then None else Some(!ReservedIPv4(n.value) && ip != "169.254.169.254")
  }

  predicate InBlock(other: string -> Option<int>, addr: nat, block: string, length: nat)
    requires length <= 128
  {
    var prefix := ParseSpec(other, block);
    prefix.Some? && InPrefix(addr, prefix.value, length, 128)
  }

  predicate IsShort(ip: string) { Lower(ip) == "::" || Lower(ip) == "::1" }

  function Low32(addr: nat): Quad {
    Quad(addr / 0x100_0000 % 256, addr / 0x1_0000 % 256, addr / 0x100 % 256, addr % 256)
  }

  function IsPublicIPv6(other: string -> Option<int>, ip: string): Option<bool> {
    var addr := ParseSpec(other, ip);
    if addr == None then None
    else if IsShort(ip) then Some(false)
    else if InBlock(other, addr.value, "::ffff:0:0", 96) then IsPublicIPv4(other, PrintQuad(Low32(addr.value)))
    else Some(!(|| InBlock(other, addr.value, "fc00::", 7) || InBlock(other, addr.value, "fe80::", 10)
                || InBlock(other, addr.value, "ff00::", 8) || InBlock(other, addr.value, "2001:db8::", 32)
                || InBlock(other, addr.value, "2001::", 32)))
  }

  // ----- the same by bytes and groups -----

  predicate ReservedQuad(q: Quad) {
    || q.a == 0 || q.a == 10 || q.a == 127 || q.a >= 224
    || (q.a == 100 && 64 <= q.b < 128) || (q.a == 169 && q.b == 254) || (q.a == 172 && 16 <= q.b < 32)
    || (q.a == 192 && q.b == 168) || (q.a == 192 && q.b == 0 && (q.c == 0 || q.c == 2))
    || (q.a == 192 && q.b == 88 && q.c == 99) || (q.a == 198 && q.b == 51 && q.c == 100)
    || (q.a == 203 && q.b == 0 && q.c == 113)
  }

  /** The eight groups hold an IPv4 address, mapped. */
  predicate Mapped(g: seq<nat>)
    requires |g| == 8
  {
    g[..6] == [0, 0, 0, 0, 0, 0xffff]
  }

  predicate ReservedGroups(g: seq<nat>)
    requires |g| == 8
  {
    if Mapped(g) then ReservedQuad(Quad(g[6] / 256, g[6] % 256, g[7] / 256, g[7] % 256))
    else
      || 0xfc00 <= g[0] <= 0xfdff || 0xfe80 <= g[0] <= 0xfebf || 0xff00 <= g[0]
      || (g[0] == 0x2001 && (g[1] == 0xdb8 || g[1] == 0))
  }

  // ----- shifting -----

  lemma {:induction false} DivUnique(x: nat, d: nat, q: nat, r: nat)
    requires r < d && x == q * d + r
    ensures x / d == q
  {
    var k := q - x / d;
    assert k * d == q * d - x / d * d;
    assert k * d == x % d - r;
    assert k >= 1 ==> k * d >= d;
    assert k <= -1 ==> k * d + d <= 0;
  }

  lemma {:induction false} Regroup(q: nat, r: nat, a: nat, b: nat)
    ensures (q * b + r) * a == q * (a * b) + r * a
  {
    assert (q * b + r) * a == q * b * a + r * a;
    assert q * b * a == q * (b * a) == q * (a * b);
  }

  lemma {:induction false} RestFits(r: nat, s: nat, a: nat, b: nat)
    requires r < b && s < a
    ensures r * a + s < a * b
  {
    var k := b - r;
    assert k * a == b * a - r * a;
    assert k >= 1 ==> k * a >= a;
  }

  lemma {:induction false} DivByProduct(q: nat, s: nat, r: nat, a: nat, b: nat)
    requires s < a && r < b
    ensures a * b > 0 && ((q * b + r) * a + s) / (a * b) == q
  {
    Regroup(q, r, a, b);
    RestFits(r, s, a, b);
    DivUnique((q * b + r) * a + s, a * b, q, r * a + s);
  }

  lemma {:induction false} DivDiv(x: nat, a: nat, b: nat)
    requires a > 0 && b > 0
    ensures a * b > 0 && x / (a * b) == x / a / b
  {
    var y := x / a;
    assert x == y * a + x % a && y == y / b * b + y % b;
    DivByProduct(y / b, x % a, y % b, a, b);
  }

  lemma {:induction false} Pow2Add(m: nat, n: nat)
    ensures Pow2(m + n) == Pow2(m) * Pow2(n)
    decreases n
  {
    if n > 0 {
      Pow2Add(m, n - 1);
      assert Pow2(m + n) == 2 * Pow2(m + (n - 1));
      assert 2 * (Pow2(m) * Pow2(n - 1)) == Pow2(m) * (2 * Pow2(n - 1));
    }
  }

  lemma {:induction false} SmallPowers()
    ensures Pow2(6) == 64 && Pow2(8) == 256 && Pow2(9) == 512 && Pow2(16) == 65536
    ensures Pow2(20) == 0x10_0000 && Pow2(22) == 0x40_0000 && Pow2(24) == 0x100_0000 && Pow2(28) == 0x1000_0000
  {
    assert Pow2(2) == 4 && Pow2(4) == 16 && Pow2(6) == 64 && Pow2(8) == 256 && Pow2(9) == 512;
    Pow2Add(8, 8);
    Pow2Add(16, 4);
    Pow2Add(16, 6);
    Pow2Add(16, 8);
    Pow2Add(24, 4);
  }

  /** Shifting away the last groups leaves the first. */
  lemma {:induction false} ValueTop(g: seq<nat>, k: nat)
    requires Small(g) && k <= |g|
    ensures Value(g) / Pow2(16 * (|g| - k)) == Value(g[..k])
    decreases |g|
  {
    if k == |g| {
      assert g[..k] == g && 16 * (|g| - k) == 0 && Pow2(0) == 1;
    } else {
      var front, n := g[..|g| - 1], |g| - 1 - k;
      ValueTop(front, k);
      assert front[..k] == g[..k];
      SmallPowers();
      Pow2Add(16, 16 * n);
      assert 16 + 16 * n == 16 * (|g| - k);
      DivDiv(Value(g), 65536, Pow2(16 * n));
      DivUnique(Value(g), 65536, Value(front), g[|g| - 1]);
    }
  }

  /** A prefix of whole groups. */
  lemma {:induction false} GroupsPrefix(g: seq<nat>, h: seq<nat>, k: nat)
    requires Small(g) && Small(h) && |g| == |h| == 8 && k <= 8
    ensures InPrefix(Value(g), Value(h), 16 * k, 128) <==> g[..k] == h[..k]
  {
    hide Pow2;
    assert 128 - 16 * k == 16 * (8 - k);
    ValueTop(g, k);
    ValueTop(h, k);
    if Value(g[..k]) == Value(h[..k]) {
      ValueInjective(g[..k], h[..k]);
    }
  }

  /** A prefix inside the first group. */
  lemma {:induction false} FirstGroupPrefix(g: seq<nat>, h: seq<nat>, length: nat)
    requires Small(g) && Small(h) && |g| == |h| == 8 && length <= 16
    ensures InPrefix(Value(g), Value(h), length, 128) <==> g[0] / Pow2(16 - length) == h[0] / Pow2(16 - length)
  {
    FirstGroup(g, length);
    FirstGroup(h, length);
  }

  lemma {:induction false} FirstGroup(g: seq<nat>, length: nat)
    requires Small(g) && |g| == 8 && length <= 16
    ensures Value(g) / Pow2(128 - length) == g[0] / Pow2(16 - length)
  {
    hide Pow2;
    ValueTop(g, 1);
    Pow2Add(112, 16 - length);
    DivDiv(Value(g), Pow2(112), Pow2(16 - length));
    OneGroup(g);
  }

  lemma {:induction false} OneGroup(g: seq<nat>)
    requires g != []
    ensures Value(g[..1]) == g[0]
  {
    assert g[..1] == [g[0]] && [g[0]][..0] == [];
    assert Value([]) == 0;
  }

  // ----- IPv4 -----

  /** On every dotted quad the prefix tests decide what the table of byte ranges does. */
  lemma {:induction false} QuadVerdict(other: string -> Option<int>, q: Quad)
    requires IsQuad(q)
    ensures IsPublicIPv4(other, PrintQuad(q)) == Some(!ReservedQuad(q))
  {
    hide PrintQuad, ParseIPv4, Pow2;
    QuadReads(other, q);
    SmallPowers();
    QuadReserved(q);
    if PrintQuad(q) == "169.254.169.254" {
      MetadataQuad(other, q);
    }
  }

  lemma {:induction false} QuadReserved(q: Quad)
    requires IsQuad(q)
    ensures ReservedIPv4(((q.a * 256 + q.b) * 256 + q.c) * 256 + q.d) <==> ReservedQuad(q)
  {
    hide Pow2;
    SmallPowers();
    QuadShifts(q);
  }

  lemma {:induction false} QuadShifts(q: Quad)
    requires IsQuad(q)
    ensures var n := ((q.a * 256 + q.b) * 256 + q.c) * 256 + q.d;
      && n / 0x100_0000 == q.a && n / 0x1000_0000 == q.a / 16
      && n / 0x1_0000 == q.a * 256 + q.b && n / 0x100 == (q.a * 256 + q.b) * 256 + q.c
      && n / 0x10_0000 == q.a * 16 + q.b / 16 && n / 0x40_0000 == q.a * 4 + q.b / 64
  {
  }

  lemma {:induction false} MetadataQuad(other: string -> Option<int>, q: Quad)
    requires IsQuad(q) && PrintQuad(q) == "169.254.169.254"
    ensures ReservedQuad(q)
  {
    var m := Quad(169, 254, 169, 254);
    assert PrintQuad(m) == "169.254.169.254" by { MetadataText(); }
    hide PrintQuad, ParseIPv4;
    QuadReads(other, q);
    QuadReads(other, m);
  }

  lemma {:induction false} MetadataText()
    ensures PrintQuad(Quad(169, 254, 169, 254)) == "169.254.169.254"
  {
    MetadataDecimals();
    hide Decimal;
    var parts := ["169", "254", "169", "254"];
    assert parts[1..] == ["254", "169", "254"] && parts[1..][1..] == ["169", "254"] && parts[1..][1..][1..] == ["254"];
    assert Join(["169", "254"], '.') == "169.254" && Join(["254", "169", "254"], '.') == "254.169.254";
  }

  lemma {:induction false} MetadataDecimals()
    ensures Decimal(169) == "169" && Decimal(254) == "254"
  {
    assert Decimal(16) == "16" && Decimal(25) == "25";
  }

  // ----- IPv6 -----

  /** A block is written as a compressed form of plain groups. */
  function Block(left: seq<string>, right: seq<string>): Form { Form(left, true, right, None) }

  lemma {:induction false} BlockReads(other: string -> Option<int>, text: string, f: Form)
    requires IsForm(f) && Print(f) == text
    ensures ParseSpec(other, text) == Some(Value(Denoted(f))) && Small(Denoted(f))
  {
    hide Print, ParseSpec, IsForm, Denoted;
    ReadsEveryForm(other, f);
  }

  lemma {:induction false} HexOf(s: string)
    requires |s| == 4 && AllHex(s)
    ensures HexValue(s) == ((HexDigit(s[0]) * 16 + HexDigit(s[1])) * 16 + HexDigit(s[2])) * 16 + HexDigit(s[3])
  {
    assert s[..3][..2] == s[..2] && s[..2][..1] == s[..1] && s[..1][..0] == "";
    assert HexValue(s[..1]) == HexDigit(s[0]);
    assert HexValue(s[..2]) == HexValue(s[..1]) * 16 + HexDigit(s[1]);
    assert HexValue(s[..3]) == HexValue(s[..2]) * 16 + HexDigit(s[2]);
  }

  lemma {:induction false} NoneOrOne(s: string)
    requires IsGroup(s)
    ensures ValuesOf([]) == [] && ValuesOf([s]) == [HexValue(s)] && Join([], ':') == "" && Join([s], ':') == s
  {
    assert [s][..0] == [];
  }

  lemma {:induction false} JoinNothing()
    ensures Join([], ':') == ""
  {
  }

  lemma {:induction false} Two(s: string, t: string)
    requires IsGroup(s) && IsGroup(t)
    ensures ValuesOf([s, t]) == [HexValue(s), HexValue(t)] && Join([s, t], ':') == s + ":" + t
  {
    NoneOrOne(s);
    NoneOrOne(t);
    assert [s, t][..1] == [s] && [s, t][1..] == [t];
  }

  lemma {:induction false} Three(s: string, t: string, u: string)
    requires IsGroup(s) && IsGroup(t) && IsGroup(u)
    ensures ValuesOf([s, t, u]) == [HexValue(s), HexValue(t), HexValue(u)]
    ensures Join([s, t, u], ':') == s + ":" + (t + ":" + u)
  {
    Two(s, t);
    Two(t, u);
    assert [s, t, u][..2] == [s, t] && [s, t, u][1..] == [t, u];
  }

  /** A block with groups on the left only. */
  lemma {:induction false} LeftBlock(other: string -> Option<int>, left: seq<string>)
    requires |left| < 8 && forall i :: 0 <= i < |left| ==> IsNumber(left[i]) && |left[i]| <= 4
    ensures ParseSpec(other, Join(left, ':') + "::") == Some(Value(ValuesOf(left) + ZeroGroups(8 - |left|)))
  {
    hide Value, ParseSpec, Join, HexValue;
    var f := Block(left, []);
    assert ValuesOf(left) + ZeroGroups(8 - |left|) + [] + [] == ValuesOf(left) + ZeroGroups(8 - |left|);
    assert Denoted(f) == ValuesOf(left) + ZeroGroups(8 - |left|);
    assert [] + Tail(f) == [];
    JoinNothing();
    assert Print(f) == Join(left, ':') + "::";
    BlockReads(other, Print(f), f);
  }

  lemma {:induction false} Zeroes()
    ensures ZeroGroups(5) == [0, 0, 0, 0, 0] && ZeroGroups(6) == [0, 0, 0, 0, 0, 0] && ZeroGroups(7) == [0, 0, 0, 0, 0, 0, 0]
    ensures ZeroGroups(8) == [0, 0, 0, 0, 0, 0, 0, 0]
  {
  }

  /** A block of one group with all bits after it zero. */
  lemma {:induction false} OneGroupBlock(other: string -> Option<int>, s: string)
    requires |s| == 4 && AllHex(s)
    ensures ParseSpec(other, s + "::") == Some(Value([HexValue(s), 0, 0, 0, 0, 0, 0, 0])) && HexValue(s) < 65536
  {
    hide ParseSpec, Value, ValuesOf, Join, HexValue;
    GroupReads(s);
    NoneOrOne(s);
    Zeroes();
    LeftBlock(other, [s]);
    assert [HexValue(s)] + [0, 0, 0, 0, 0, 0, 0] == [HexValue(s), 0, 0, 0, 0, 0, 0, 0];
  }

  lemma {:induction false} Literals()
    ensures "2001" + ":" + "db8" + "::" == "2001:db8::"
    ensures "" + "::" + ("ffff" + ":" + ("0" + ":" + "0")) == "::ffff:0:0"
    ensures IsGroup("2001") && IsGroup("db8") && IsGroup("ffff") && IsGroup("0")
    ensures HexValue("2001") == 0x2001 && HexValue("db8") == 0xdb8 && HexValue("ffff") == 0xffff && HexValue("0") == 0
  {
    HexOf("2001");
    HexOf("ffff");
    DbEight();
    assert "0"[..0] == "" && HexValue("0") == 0;
  }

  lemma {:induction false} DocumentationBlock(other: string -> Option<int>)
    ensures ParseSpec(other, "2001:db8::") == Some(Value([0x2001, 0xdb8, 0, 0, 0, 0, 0, 0]))
  {
    hide ParseSpec, Value, ValuesOf, Join, HexValue, IsGroup;
    Literals();
    var s, t := "2001", "db8";
    Two(s, t);
    Zeroes();
    LeftBlock(other, [s, t]);
    assert [0x2001, 0xdb8] + [0, 0, 0, 0, 0, 0] == [0x2001, 0xdb8, 0, 0, 0, 0, 0, 0];
  }

  lemma {:induction false} DbEight()
    ensures AllHex("db8") && HexValue("db8") == 0xdb8
  {
    assert "db8"[..2] == "db" && "db"[..1] == "d" && "d"[..0] == "";
    assert HexValue("d") == 0xd && HexValue("db") == 0xdb;
  }

  lemma {:induction false} MappedBlock(other: string -> Option<int>)
    ensures ParseSpec(other, "::ffff:0:0") == Some(Value([0, 0, 0, 0, 0, 0xffff, 0, 0]))
  {
    hide ParseSpec, Value, ValuesOf, Join, HexValue, IsGroup;
    Literals();
    JoinNothing();
    var f := Block([], ["ffff", "0", "0"]);
    Three("ffff", "0", "0");
    Zeroes();
    assert f.right + Tail(f) == f.right;
    NoneOrOne("0");
    assert Denoted(f) == [] + [0, 0, 0, 0, 0] + [0xffff, 0, 0] + [];
    assert Denoted(f) == [0, 0, 0, 0, 0, 0xffff, 0, 0];
    BlockReads(other, "::ffff:0:0", f);
  }

  lemma {:induction false} GroupBlockTest(other: string -> Option<int>, g: seq<nat>, s: string, length: nat)
    requires Small(g) && |g| == 8 && |s| == 4 && AllHex(s) && length <= 16
    ensures InBlock(other, Value(g), s + "::", length) <==> g[0] / Pow2(16 - length) == HexValue(s) / Pow2(16 - length)
  {
    hide Value, ParseSpec, HexValue, InPrefix;
    OneGroupBlock(other, s);
    FirstGroupPrefix(g, [HexValue(s), 0, 0, 0, 0, 0, 0, 0], length);
  }

  /** What the tests inside the first group decide about eight groups. */
  lemma {:induction false} BlockTests(other: string -> Option<int>, g: seq<nat>)
    requires Small(g) && |g| == 8
    ensures InBlock(other, Value(g), "fc00::", 7) <==> 0xfc00 <= g[0] <= 0xfdff
    ensures InBlock(other, Value(g), "fe80::", 10) <==> 0xfe80 <= g[0] <= 0xfebf
    ensures InBlock(other, Value(g), "ff00::", 8) <==> 0xff00 <= g[0]
  {
    hide Value, ParseSpec, InBlock, Pow2;
    SmallPowers();
    HexOf("fc00");
    HexOf("fe80");
    HexOf("ff00");
    GroupBlockTest(other, g, "fc00", 7);
    GroupBlockTest(other, g, "fe80", 10);
    GroupBlockTest(other, g, "ff00", 8);
    assert "fc00" + "::" == "fc00::" && "fe80" + "::" == "fe80::" && "ff00" + "::" == "ff00::";
    assert g[0] < 65536;
  }

  lemma {:induction false} WideBlockTests(other: string -> Option<int>, g: seq<nat>)
    requires Small(g) && |g| == 8
    ensures InBlock(other, Value(g), "2001:db8::", 32) <==> g[0] == 0x2001 && g[1] == 0xdb8
    ensures InBlock(other, Value(g), "2001::", 32) <==> g[0] == 0x2001 && g[1] == 0
    ensures InBlock(other, Value(g), "::ffff:0:0", 96) <==> Mapped(g)
  {
    hide Value, ParseSpec, InPrefix;
    var doc, teredo, mapped := [0x2001, 0xdb8, 0, 0, 0, 0, 0, 0], [0x2001, 0, 0, 0, 0, 0, 0, 0], [0, 0, 0, 0, 0, 0xffff, 0, 0];
    HexOf("2001");
    DocumentationBlock(other);
    OneGroupBlock(other, "2001");
    assert "2001" + "::" == "2001::";
    MappedBlock(other);
    GroupsPrefix(g, doc, 2);
    GroupsPrefix(g, teredo, 2);
    GroupsPrefix(g, mapped, 6);
    assert doc[..2] == [0x2001, 0xdb8] && teredo[..2] == [0x2001, 0] && g[..2] == [g[0], g[1]];
    assert mapped[..6] == [0, 0, 0, 0, 0, 0xffff];
  }

  lemma {:induction false} Low32Is(g: seq<nat>)
    requires Small(g) && |g| == 8
    ensures Low32(Value(g)) == Quad(g[6] / 256, g[6] % 256, g[7] / 256, g[7] % 256)
    ensures IsQuad(Low32(Value(g)))
  {
    var front := g[..6];
    assert g[..7][..6] == front && g[..7][6] == g[6];
    assert Value(g) == Value(g[..7]) * 65536 + g[7] && Value(g[..7]) == Value(front) * 65536 + g[6];
    LowBytes(Value(front), g[6], g[7]);
  }

  lemma {:induction false} TwoBytes(w: nat, y: nat)
    requires y < 65536
    ensures var n := w * 65536 + y; n % 256 == y % 256 && n / 256 % 256 == y / 256 && n / 65536 == w
  {
    assert w * 65536 + y == (w * 256 + y / 256) * 256 + y % 256;
    DivUnique(w * 65536 + y, 256, w * 256 + y / 256, y % 256);
    DivUnique(w * 256 + y / 256, 256, w, y / 256);
    DivUnique(w * 65536 + y, 65536, w, y);
  }

  lemma {:induction false} LowBytes(v: nat, x: nat, y: nat)
    requires x < 65536 && y < 65536
    ensures Low32((v * 65536 + x) * 65536 + y) == Quad(x / 256, x % 256, y / 256, y % 256)
  {
    TwoBytes(v * 65536 + x, y);
    TwoBytes(v, x);
    DivDiv((v * 65536 + x) * 65536 + y, 65536, 256);
  }

  /** The verdict on every text form depends on its eight groups and on whether it is one of the two
      shortest texts. */
  lemma {:induction false} VerdictOfForm(other: string -> Option<int>, f: Form)
    requires IsForm(f)
    ensures IsPublicIPv6(other, Print(f)) == Some(!IsShort(Print(f)) && !ReservedGroups(Denoted(f)))
  {
    hide IsForm, Print, Denoted, ParseSpec, Value, InBlock, IsShort, ReservedQuad, Low32, Mapped, IsPublicIPv4, PrintQuad;
    ReadsEveryForm(other, f);
    var g := Denoted(f);
    BlockTests(other, g);
    WideBlockTests(other, g);
    Low32Is(g);
    QuadVerdict(other, Low32(Value(g)));
  }

  lemma {:induction false} ZeroForm()
    ensures IsForm(Block([], [])) && Print(Block([], [])) == "::" && Denoted(Block([], [])) == [0, 0, 0, 0, 0, 0, 0, 0]
  {
    var f := Block([], []);
    assert [] + Tail(f) == [] && Join([], ':') == "" && ValuesOf([]) == [];
    assert "" + "::" + "" == "::";
    Zeroes();
    assert [] + [0, 0, 0, 0, 0, 0, 0, 0] + [] + [] == [0, 0, 0, 0, 0, 0, 0, 0];
  }

  lemma {:induction false} OneForm()
    ensures IsForm(Block([], ["1"])) && Print(Block([], ["1"])) == "::1" && Denoted(Block([], ["1"])) == [0, 0, 0, 0, 0, 0, 0, 1]
  {
    assert "1"[..0] == "" && HexValue("1") == 1;
    NoneOrOne("1");
    hide ValuesOf, Join, HexValue;
    var f := Block([], ["1"]);
    assert ["1"] + Tail(f) == ["1"];
    assert "" + "::" + "1" == "::1";
    Zeroes();
    assert [] + [0, 0, 0, 0, 0, 0, 0] + [1] + [] == [0, 0, 0, 0, 0, 0, 0, 1];
  }

  lemma {:induction false} ZeroAndOne()
    ensures Value([0, 0, 0, 0, 0, 0, 0, 0]) == 0 && Value([0, 0, 0, 0, 0, 0, 0, 1]) == 1
  {
    assert ZeroGroups(7) == [0, 0, 0, 0, 0, 0, 0] && ZeroGroups(8) == [0, 0, 0, 0, 0, 0, 0, 0];
    ZerosWorth(7);
    ZerosWorth(8);
    assert [0, 0, 0, 0, 0, 0, 0, 1][..7] == [0, 0, 0, 0, 0, 0, 0];
  }

  /** The two shortest texts are those of the addresses zero and one, which are in no reserved block. */
  lemma {:induction false} ShortDenotes(other: string -> Option<int>, f: Form)
    requires IsForm(f) && IsShort(Print(f))
    ensures Value(Denoted(f)) <= 1 && !ReservedGroups(Denoted(f))
  {
    hide IsForm, Print, Denoted, Value, LowerForm, ParseSpec, ReservedGroups;
    LowerPrint(f);
    LowerDenotes(f);
    ZeroAndOne();
    var e := if Lower(Print(f)) == "::" then Block([], []) else Block([], ["1"]);
    if Lower(Print(f)) == "::" {
      ZeroForm();
    } else {
      OneForm();
    }
    SameReadingSameAddress(other, LowerForm(f), e);
    FreeGroups();
  }

  lemma {:induction false} FreeGroups()
    ensures !ReservedGroups([0, 0, 0, 0, 0, 0, 0, 0]) && !ReservedGroups([0, 0, 0, 0, 0, 0, 0, 1])
  {
    assert [0, 0, 0, 0, 0, 0, 0, 0][..6][5] == 0 && [0, 0, 0, 0, 0, 0, 0, 1][..6][5] == 0;
  }

  /** Two texts of one address get the same verdict exactly when both are among the shortest texts or
      neither is; so always, except for the addresses zero and one. */
  lemma {:induction false} SameAddressVerdicts(other: string -> Option<int>, f: Form, g: Form)
    requires IsForm(f) && IsForm(g) && Denoted(f) == Denoted(g)
    ensures IsPublicIPv6(other, Print(f)) == IsPublicIPv6(other, Print(g)) <==> (IsShort(Print(f)) <==> IsShort(Print(g)))
    ensures Value(Denoted(f)) > 1 ==> IsPublicIPv6(other, Print(f)) == IsPublicIPv6(other, Print(g))
  {
    hide IsForm, Print, Denoted, Value, IsShort, ReservedGroups;
    VerdictOfForm(other, f);
    VerdictOfForm(other, g);
    if IsShort(Print(f)) {
      ShortDenotes(other, f);
    }
    if IsShort(Print(g)) {
      ShortDenotes(other, g);
    }
  }

  lemma {:induction false} JoinLong(parts: seq<string>)
    requires parts != []
    ensures |Join(parts, ':')| >= |parts| - 1
    decreases |parts|
  {
    if |parts| > 1 {
      JoinLong(parts[1..]);
    }
  }

  /** The full text of the address whose last group is `last` and whose other groups are zero. */
  function Full(last: string): Form { Form(Zeros(7) + [last], false, [], None) }

  lemma {:induction false} FullForm(last: string)
    requires IsGroup(last)
    ensures IsForm(Full(last)) && !IsShort(Print(Full(last))) && Denoted(Full(last)) == ZeroGroups(7) + [HexValue(last)]
  {
    var f := Full(last);
    assert IsGroup("0");
    assert ValuesOf([]) == [] && ZeroGroups(0) == [];
    hide Join, Lower, IsNumber, HexValue, ValuesOf, ZeroGroups;
    assert f.left + Tail(f) == f.left;
    JoinLong(f.left);
    ValuesOfZeros(7, last);
  }

  lemma {:induction false} ValuesOfZeros(n: nat, last: string)
    requires IsGroup(last) && IsGroup("0")
    ensures ValuesOf(Zeros(n) + [last]) == ZeroGroups(n) + [HexValue(last)]
  {
    var groups := Zeros(n) + [last];
    assert forall i :: 0 <= i < |groups| ==> IsGroup(groups[i]);
    assert "0"[..0] == "" && HexValue("0") == 0;
    assert forall i :: 0 <= i <= n ==> ValuesOf(groups)[i] == HexValue(groups[i]);
  }

  /** All texts of an address get the same verdict exactly when the address is neither zero nor one. */
  lemma {:induction false} OneVerdictExactly(other: string -> Option<int>, g: seq<nat>)
    requires Small(g) && |g| == 8
    ensures Value(g) > 1 <==>
      forall a, b :: IsForm(a) && IsForm(b) && Denoted(a) == Denoted(b) == g ==>
        IsPublicIPv6(other, Print(a)) == IsPublicIPv6(other, Print(b))
  {
    hide IsForm, Print, Denoted, Value, IsShort, IsPublicIPv6;
    forall a, b | IsForm(a) && IsForm(b) && Denoted(a) == Denoted(b) == g && Value(g) > 1
      ensures IsPublicIPv6(other, Print(a)) == IsPublicIPv6(other, Print(b))
    {
      SameAddressVerdicts(other, a, b);
    }
    if Value(g) <= 1 {
      var a, b := TwoTexts(g);
      SameAddressVerdicts(other, a, b);
    }
  }

  lemma {:induction false} TwoTexts(g: seq<nat>) returns (a: Form, b: Form)
    requires Small(g) && |g| == 8 && Value(g) <= 1
    ensures IsForm(a) && IsForm(b) && Denoted(a) == Denoted(b) == g
    ensures IsShort(Print(a)) && !IsShort(Print(b))
  {
    hide Print, Denoted, Value, IsForm, Full;
    ZeroAndOne();
    if Value(g) == 0 {
      TextsOfZero();
      a, b := Block([], []), Full("0");
      ValueInjective(g, Denoted(a));
    } else {
      TextsOfOne();
      a, b := Block([], ["1"]), Full("1");
      ValueInjective(g, Denoted(a));
    }
  }

  lemma {:induction false} TextsOfZero()
    ensures var a, b := Block([], []), Full("0");
      && IsForm(a) && IsForm(b) && Denoted(a) == Denoted(b) == [0, 0, 0, 0, 0, 0, 0, 0]
      && IsShort(Print(a)) && !IsShort(Print(b))
  {
    hide Print, Denoted, HexValue, IsForm, Full;
    Digits();
    FullForm("0");
    ZeroForm();
    ShortLower();
    Zeroes();
    assert [0, 0, 0, 0, 0, 0, 0] + [0] == [0, 0, 0, 0, 0, 0, 0, 0];
  }

  lemma {:induction false} TextsOfOne()
    ensures var a, b := Block([], ["1"]), Full("1");
      && IsForm(a) && IsForm(b) && Denoted(a) == Denoted(b) == [0, 0, 0, 0, 0, 0, 0, 1]
      && IsShort(Print(a)) && !IsShort(Print(b))
  {
    hide Print, Denoted, HexValue, IsForm, Full;
    Digits();
    FullForm("1");
    OneForm();
    ShortLower();
    Zeroes();
    assert [0, 0, 0, 0, 0, 0, 0] + [1] == [0, 0, 0, 0, 0, 0, 0, 1];
  }

  lemma {:induction false} Digits()
    ensures IsGroup("0") && HexValue("0") == 0 && IsGroup("1") && HexValue("1") == 1
  {
    assert "0"[..0] == "" && "1"[..0] == "";
  }

  lemma {:induction false} ShortLower()
    ensures IsShort("::") && IsShort("::1")
  {
    LowerSame("::");
    LowerSame("::1");
  }
}
