/** Reading addresses (`apps/scanner-asm/src/surface.probe.ts`, copied in
    `apps/asset-service/src/connectors/dns.egress.ts`), against the text forms of section 2.2 of
    RFC 4291. */
module Ipv6Text {
  import opened Core

  // ----- reading numbers -----

  /** `Number(s)` where it is an integer.  On plain numerals it is the decimal value; `other` stands
      for the runtime on all other strings. */
  function NumberOf(other: string -> Option<int>, s: string): Option<int> {
    if IsNumeral(s) then Some(DecimalValue(s)) else other(s)
  }

  function HexDigit(c: char): (n: nat)
    requires IsHex(c)
    ensures n < 16
  {
    if c <= '9' then c as int - '0' as int
    else if c <= 'F' then c as int - 'A' as int + 10
    else c as int - 'a' as int + 10
  }

  predicate AllHex(s: string) { forall i :: 0 <= i < |s| ==> IsHex(s[i]) }

  function HexValue(s: string): nat
    requires AllHex(s)
  {
    if s == "" then 0 else
    assert IsHex(s[|s| - 1]);
    16 * HexValue(s[..|s| - 1]) + HexDigit(s[|s| - 1])
  }

  /** How many characters at the start of `s` are hexadecimal digits. */
  function HexSpan(s: string): (n: nat)
    ensures n <= |s| && AllHex(s[..n])
  {
    if s == "" || !IsHex(s[0]) then 0 else
    var n := 1 + HexSpan(s[1..]);
    assert s[..n] == [s[0]] + s[1..][..n - 1];
    n
  }

  /** `parseInt(s, 16)`; `None` is NaN. */
  function ParseInt16(s: string): Option<int> {
    var t := TrimStart(s);
    var negative := t != "" && t[0] == '-';
    var u := if t != "" && (t[0] == '-' || t[0] == '+') then t[1..] else t;
    var v := if |u| >= 2 && u[0] == '0' && (u[1] == 'x' || u[1] == 'X') then u[2..] else u;
    var n := HexSpan(v);
    var value: int := HexValue(v[..n]);
    if n == 0 then None else Some(if negative then -value else value)
  }

  /** `n.toString(16)`. */
  function Hex(n: nat): string {
    var d := n % 16;
    var last := [if d < 10 then '0' + d as char else 'a' + (d - 10) as char];
    if n < 16 then last else Hex(n / 16) + last
  }

  // ----- reading an IPv4 address -----

  function ByteOf(other: string -> Option<int>, s: string): Option<nat> {
    var n := NumberOf(other, s);
    if n.Some? && 0 <= n.value <= 255 then Some(n.value) else None
  }

  function ParseIPv4(other: string -> Option<int>, ip: string): Option<nat> {
    var parts := Split(ip, '.');
    if |parts| != 4 then None
    else
      var a, b, c, d := ByteOf(other, parts[0]), ByteOf(other, parts[1]), ByteOf(other, parts[2]), ByteOf(other, parts[3]);
      if a == None || b == None || c == None || d == None then None
      else Some(((a.value * 256 + b.value) * 256 + c.value) * 256 + d.value)
  }

  // ----- reading an IPv6 address -----

  function Fields(s: string): seq<string> { if s == "" then [] else Split(s, ':') }

  function NonEmpty(parts: seq<string>): (r: seq<string>) {
    if parts == [] then [] else (if parts[0] == "" then [] else [parts[0]]) + NonEmpty(parts[1..])
  }

  function Zeros(n: nat): (r: seq<string>)
    ensures |r| == n && forall i :: 0 <= i < n ==> r[i] == "0"
  {
    if n == 0 then [] else ["0"] + Zeros(n - 1)
  }

  /** The two groups that a dotted tail stands for; an unreadable tail stands for zero. */
  function TailGroups(other: string -> Option<int>, tail: string): (r: seq<string>)
    ensures |r| == if tail == "" then 0 else 2
  {
    if tail == "" then []
    else
      var n := Or(ParseIPv4(other, tail), 0);
      [Hex(n / 65536 % 65536), Hex(n % 65536)]
  }

  function Or(x: Option<nat>, n: nat): nat { if x.Some? then x.value else n }

  /** The eight groups of a text with `::`, given the fields before and after it. */
  function Expand(other: string -> Option<int>, dotted: bool, before: seq<string>, after: seq<string>): (r: Option<seq<string>>)
    ensures r.Some? ==> |r.value| == 8
  {
    var cut := dotted && after != [];
    var tail := if cut then after[|after| - 1] else "";
    var left := NonEmpty(before);
    var right := NonEmpty(if cut then after[..|after| - 1] else after);
    var total := |left| + |right| + (if tail == "" then 0 else 2);
    if total > 8 then None else Some(left + Zeros(8 - total) + right + TailGroups(other, tail))
  }

  /** The eight groups of a lower-case text. */
  function GroupTexts(other: string -> Option<int>, lower: string): (r: Option<seq<string>>)
    ensures r.Some? ==> |r.value| == 8
  {
    var k := IndexOf(lower, "::", 0);
    if k != -1 then
      if IndexOf(lower, "::", k + 2) != -1 then None
      else Expand(other, '.' in lower, Fields(lower[..k]), Fields(lower[k + 2..]))
    else
      var parts := Split(lower, ':');
      var tail := if '.' in lower then parts[|parts| - 1] else "";
      var groups := if '.' in lower then parts[..|parts| - 1] else parts;
      if |groups| + (if tail == "" then 0 else 2) != 8 then None
      else Some(groups + TailGroups(other, tail))
  }

  function GroupOf(part: string): Option<nat> {
    var n := ParseInt16(part);
    if n.Some? && 0 <= n.value <= 0xffff then Some(n.value) else None
  }

  function Fold(parts: seq<string>): Option<nat> {
    if parts == [] then Some(0)
    else
      var front, last := Fold(parts[..|parts| - 1]), GroupOf(parts[|parts| - 1]);
      if front.Some? && last.Some? then Some(front.value * 65536 + last.value) else None
  }

  /** The text between the brackets, if there are any. */
  function Unbracketed(ip: string): string {
    var s := Trim(ip);
    if s != "" && s[0] == '[' && s[|s| - 1] == ']' && |s| >= 2 then s[1..|s| - 1] else s
  }

  function ParseSpec(other: string -> Option<int>, ip: string): Option<nat> {
    var lower := Lower(Unbracketed(ip));
    if '%' in lower || ':' !in lower then None
    else
      var parts := GroupTexts(other, lower);
      if parts.Some? then Fold(parts.value) else None
  }

  lemma {:induction false} FoldStops(parts: seq<string>, i: nat)
    requires i < |parts| && GroupOf(parts[i]) == None
    ensures Fold(parts) == None
    decreases |parts|
  {
    if i < |parts| - 1 {
      FoldStops(parts[..|parts| - 1], i);
    }
  }

  method FoldGroups(parts: seq<string>) returns (r: Option<nat>)
    ensures r == Fold(parts)
  {
    hide ParseInt16;
    var out := 0;
    var i := 0;
    while i < |parts|
      invariant 0 <= i <= |parts|
      invariant Fold(parts[..i]) == Some(out)
    {
      var n := ParseInt16(parts[i]);
      if n == None || n.value < 0 || n.value > 0xffff {
        FoldStops(parts, i);
        return None;
      }
      assert parts[..i + 1][..i] == parts[..i];
      out := out * 65536 + n.value;
      i := i + 1;
    }
    assert parts[..i] == parts;
    return Some(out);
  }
}
