/** The AWS XML block extractor (`apps/asset-service/src/connectors/aws.xml.ts`).

    `FindOpen`, `MatchClose` and `Extract` follow the scanner's control flow on arbitrary
    strings, and the methods below are the loops themselves.  The printed trees are the
    documents the scanner is meant for; `ExtractPrinted` is the main result. */
module AwsXml {
  import opened Core

  // ----- letters -----

  predicate IsDelimiter(c: char) {
    c == '>' || c == ' ' || c == '\n' || c == '\t' || c == '/' || c == '\r'
  }

  // ----- the scanner -----

  datatype OpenTag = OpenTag(start: nat, end: nat, selfClosing: bool)

  function FindOpen(xml: string, tag: string, idx: nat): (r: Option<OpenTag>)
    ensures r.Some? ==> idx <= r.value.start < r.value.end <= |xml|
    decreases |xml| - idx
  {
    if idx >= |xml| then None else
    var start := IndexOf(Lower(xml), Lower("<" + tag), idx);
    if start < 0 then None else
    var after := start + 1 + |tag|;
    if after >= |xml| || !IsDelimiter(xml[after]) then FindOpen(xml, tag, after) else
    var gt := IndexOf(xml, ">", after);
    if gt < 0 then None
    else Some(OpenTag(start, gt + 1, xml[gt - 1] == '/'))
  }

  /** The inner loop: from offset `j` at nesting depth `depth`, the offset of the closing tag
      that brings the depth to zero. */
  function MatchClose(xml: string, tag: string, j: nat, depth: nat): (r: Option<nat>)
    requires depth >= 1
    ensures r.Some? ==> j <= r.value && r.value + |tag| + 3 <= |xml|
    decreases |xml| - j
  {
    if j >= |xml| then None else
    var open := FindOpen(xml, tag, j);
    var close := IndexOf(Lower(xml), Lower("</" + tag + ">"), j);
    if close < 0 then None
    else if open.Some? && open.value.start < close then
      MatchClose(xml, tag, open.value.end, if open.value.selfClosing then depth else depth + 1)
    else if depth == 1 then Some(close)
    else MatchClose(xml, tag, close + |tag| + 3, depth - 1)
  }

  function Extract(xml: string, tag: string, i: nat): seq<string>
    decreases |xml| - i
  {
    var open := FindOpen(xml, tag, i);
    if open.None? then []
    else if open.value.selfClosing then Extract(xml, tag, open.value.end)
    else
      var end := MatchClose(xml, tag, open.value.end, 1);
      if end.None? then []
      else [xml[open.value.end..end.value]] + Extract(xml, tag, end.value + |tag| + 3)
  }

  // ----- the loops -----

  method FindOpenTag(xml: string, tag: string, from: nat) returns (r: Option<OpenTag>)
    ensures r == FindOpen(xml, tag, from)
    ensures '<' !in tag ==> IsFirst(xml, tag, from, r)
  {
    hide IndexOf, Lower, IsFirst;
    if '<' !in tag {
      FindOpenFirst(xml, tag, from);
    }
    var idx := from;
    var lower := Lower(xml);
    var needleLower := Lower("<" + tag);
    ghost var goal := FindOpen(xml, tag, from);
    while idx < |xml|
      invariant FindOpen(xml, tag, idx) == goal
      decreases |xml| - idx
    {
      var start := IndexOf(lower, needleLower, idx);
      if start < 0 {
        return None;
      }
      var after := start + |needleLower|;
      if after >= |xml| || !IsDelimiter(xml[after]) {
        idx := after;
        continue;
      }
      var gt := IndexOf(xml, ">", after);
      if gt < 0 {
        return None;
      }
      return Some(OpenTag(start, gt + 1, xml[gt - 1] == '/'));
    }
    return None;
  }

  /** One turn of the outer loop. */
  lemma {:induction false} ExtractTurn(xml: string, tag: string, i: nat)
    ensures var open := FindOpen(xml, tag, i);
      Extract(xml, tag, i) ==
        if open.None? then []
        else if open.value.selfClosing then Extract(xml, tag, open.value.end)
        else
          var end := MatchClose(xml, tag, open.value.end, 1);
          if end.None? then []
          else [xml[open.value.end..end.value]] + Extract(xml, tag, end.value + |tag| + 3)
  {
    hide FindOpen, MatchClose;
  }

  method ExtractTagBlocks(xml: string, tag: string) returns (blocks: seq<string>)
    ensures blocks == Extract(xml, tag, 0)
    ensures AreBodies(xml, tag, blocks)
  {
    hide FindOpen, IndexOf, Lower, At, Extract, IsFirst, AreBodies;
    ExtractBodies(xml, tag);
    blocks := [];
    var close := "</" + tag + ">";
    var i := 0;
    ghost var all := Extract(xml, tag, 0);
    while i < |xml|
      invariant blocks + Extract(xml, tag, i) == all
      decreases |xml| - i
    {
      var open := FindOpenTag(xml, tag, i);
      ExtractTurn(xml, tag, i);
      if open.None? {
        break;
      }
      if open.value.selfClosing {
        i := open.value.end;
        continue;
      }
      var depth, j, contentEnd: int := 1, open.value.end, -1;
      ghost var goal := MatchClose(xml, tag, j, 1);
      while j < |xml| && depth > 0
        invariant open.value.end <= j <= |xml| && depth >= 0
        invariant depth > 0 ==> contentEnd == -1 && MatchClose(xml, tag, j, depth) == goal
        invariant depth == 0 ==> contentEnd >= 0 && goal == Some(contentEnd)
        decreases |xml| - j
      {
        var nextOpen := FindOpenTag(xml, tag, j);
        var nextClose := IndexOf(Lower(xml), Lower(close), j);
        if nextClose < 0 {
          return;
        }
        if nextOpen.Some? && nextOpen.value.start < nextClose {
          if !nextOpen.value.selfClosing {
            depth := depth + 1;
          }
          j := nextOpen.value.end;
        } else {
          depth := depth - 1;
          if depth == 0 {
            contentEnd := nextClose;
          }
          j := nextClose + |close|;
        }
      }
      if contentEnd < 0 {
        break;
      }
      blocks := blocks + [xml[open.value.end..contentEnd]];
      i := contentEnd + |close|;
    }
    if i >= |xml| {
      ExtractAtEnd(xml, tag, i);
    }
  }

  // ----- printed documents -----

  datatype Node =
    | Text(text: string)
    | Declaration(text: string)
    | Empty(name: string, attrs: string)
    | Elem(name: string, attrs: string, children: seq<Node>)

  /** Any character may stand in a name but angle brackets, the slash and white space. */
  predicate IsNameChar(c: char) { c !in "<>/ \t\n\r" }

  predicate NameOk(name: string) {
    |name| > 0 && name[0] != '?' && forall i :: 0 <= i < |name| ==> IsNameChar(name[i])
  }

  /** Attribute text: absent, or white space followed by anything without angle brackets. */
  predicate AttrsOk(attrs: string) {
    && (attrs == "" || attrs[0] == ' ' || attrs[0] == '\n' || attrs[0] == '\t' || attrs[0] == '\r')
    && '<' !in attrs && '>' !in attrs
  }

  ghost predicate NodeOk(n: Node) {
    match n
    case Text(s) => '<' !in s
    case Declaration(s) => '<' !in s && '>' !in s
    case Empty(name, attrs) => NameOk(name) && AttrsOk(attrs)
    case Elem(name, attrs, children) =>
      && NameOk(name) && AttrsOk(attrs) && (attrs != "" ==> attrs[|attrs| - 1] != '/')
      && forall c :: c in children ==> NodeOk(c)
  }

  ghost predicate AllOk(ns: seq<Node>) { forall n :: n in ns ==> NodeOk(n) }

  function OpenText(name: string, attrs: string): string { "<" + name + attrs + ">" }
  function EmptyText(name: string, attrs: string): string { "<" + name + attrs + "/>" }
  function CloseText(name: string): string { "</" + name + ">" }

  function DeclarationText(s: string): string { "<?" + s + "?>" }

  function Print(n: Node): string
    decreases n
  {
    match n
    case Text(s) => s
    case Declaration(s) => DeclarationText(s)
    case Empty(name, attrs) => EmptyText(name, attrs)
    case Elem(name, attrs, children) => OpenText(name, attrs) + (PrintAll(children) + CloseText(name))
  }

  function PrintAll(ns: seq<Node>): string
    decreases ns
  {
    if ns == [] then "" else Print(ns[0]) + PrintAll(ns[1..])
  }

  /** The same character, or one ASCII letter in its two cases. */
  predicate SameLetter(c: char, d: char) {
    || c == d
    || ('A' <= c <= 'Z' && d as int == c as int - 'A' as int + 'a' as int)
    || ('A' <= d <= 'Z' && c as int == d as int - 'A' as int + 'a' as int)
  }

  /** Tag names are compared without regard to case. */
  predicate SameTag(name: string, tag: string) {
    |name| == |tag| && forall i :: 0 <= i < |name| ==> SameLetter(name[i], tag[i])
  }

  lemma {:induction false} SameTagIs(name: string, tag: string)
    ensures SameTag(name, tag) <==> Lower(name) == Lower(tag)
  {
    forall i | 0 <= i < |name| && |name| == |tag|
      ensures SameLetter(name[i], tag[i]) <==> Lower(name)[i] == Lower(tag)[i]
    {
      LowerIndex(name, i);
      LowerIndex(tag, i);
    }
  }

  /** The printed bodies of the outermost elements named `tag`, in document order. */
  function Bodies(n: Node, tag: string): seq<string>
    decreases n
  {
    match n
    case Text(_) => []
    case Declaration(_) => []
    case Empty(_, _) => []
    case Elem(name, _, children) =>
      if SameTag(name, tag) then [PrintAll(children)] else BodiesAll(children, tag)
  }

  function BodiesAll(ns: seq<Node>, tag: string): seq<string>
    decreases ns
  {
    if ns == [] then [] else Bodies(ns[0], tag) + BodiesAll(ns[1..], tag)
  }

  /** If the text is a printed document, `blocks` are its bodies. */
  ghost predicate AreBodies(xml: string, tag: string, blocks: seq<string>) {
    forall doc :: NameOk(tag) && AllOk(doc) && xml == PrintAll(doc) ==> blocks == BodiesAll(doc, tag)
  }

  // ----- where a tag can be seen -----

  /** `<` and the tag, in any case, and then the end of the name: `>`, a slash or white space. */
  ghost predicate OpenAt(xml: string, tag: string, k: nat) {
    At(Lower(xml), k, Lower("<" + tag)) && k + 1 + |tag| < |xml| && xml[k + 1 + |tag|] in ">/ \t\n\r"
  }

  ghost predicate CloseAt(xml: string, tag: string, k: nat) {
    At(Lower(xml), k, Lower(CloseText(tag)))
  }

  ghost predicate Quiet(xml: string, tag: string, i: nat, j: nat) {
    forall k: nat :: i <= k < j ==> !OpenAt(xml, tag, k) && !CloseAt(xml, tag, k)
  }

  lemma {:induction false} LowerAt(xml: string, k: nat, w: string)
    requires At(Lower(xml), k, Lower(w))
    ensures k + |w| <= |xml| && forall i :: 0 <= i < |w| ==> LowerChar(xml[k + i]) == LowerChar(w[i])
  {
    hide Lower;
    forall i | 0 <= i < |w|
      ensures LowerChar(xml[k + i]) == LowerChar(w[i])
    {
      LowerIndex(xml, k + i);
      LowerIndex(w, i);
      assert Lower(xml)[k..k + |w|][i] == Lower(w)[i];
    }
  }

  lemma {:induction false} LowerCharAt(xml: string, k: nat, w: string, i: nat)
    requires At(Lower(xml), k, Lower(w)) && i < |w|
    ensures k + i < |xml| && LowerChar(xml[k + i]) == LowerChar(w[i])
  {
    LowerAt(xml, k, w);
  }

  lemma {:induction false} AtChar(xml: string, k: nat, w: string, i: nat)
    requires At(xml, k, w) && i < |w|
    ensures k + i < |xml| && xml[k + i] == w[i]
  {
    assert xml[k..k + |w|][i] == w[i];
  }

  /** Nothing starts where there is no opening bracket. */
  lemma {:induction false} NoBracketNoTag(xml: string, tag: string, k: nat)
    requires k >= |xml| || xml[k] != '<'
    ensures !OpenAt(xml, tag, k) && !CloseAt(xml, tag, k)
  {
    if At(Lower(xml), k, Lower("<" + tag)) {
      LowerCharAt(xml, k, "<" + tag, 0);
    }
    if CloseAt(xml, tag, k) {
      LowerCharAt(xml, k, CloseText(tag), 0);
    }
  }

  lemma {:induction false} NoBracketQuiet(xml: string, tag: string, p: nat, w: string)
    requires At(xml, p, w) && '<' !in w
    ensures Quiet(xml, tag, p, p + |w|)
  {
    forall k: nat | p <= k < p + |w|
      ensures !OpenAt(xml, tag, k) && !CloseAt(xml, tag, k)
    {
      AtChar(xml, p, w, k - p);
      NoBracketNoTag(xml, tag, k);
    }
  }

  lemma {:induction false} DeclarationQuiet(xml: string, tag: string, p: nat, s: string)
    requires NameOk(tag) && '<' !in s && At(xml, p, DeclarationText(s))
    ensures Quiet(xml, tag, p, p + |DeclarationText(s)|)
  {
    var token := DeclarationText(s);
    forall k: nat | p <= k < p + |token|
      ensures !OpenAt(xml, tag, k) && !CloseAt(xml, tag, k)
    {
      AtChar(xml, p, token, k - p);
      if k > p {
        NoBracketNoTag(xml, tag, k);
      } else {
        AtChar(xml, p, token, 1);
        if At(Lower(xml), p, Lower("<" + tag)) {
          LowerCharAt(xml, p, "<" + tag, 1);
        }
        if CloseAt(xml, tag, p) {
          LowerCharAt(xml, p, CloseText(tag), 1);
        }
      }
    }
  }

  /** A printed opening token `<name rest` is seen as a `tag` opening exactly when the names agree. */
  lemma {:induction false} OpenToken(xml: string, tag: string, p: nat, name: string, rest: string)
    requires NameOk(name) && NameOk(tag) && rest != "" && IsDelimiter(rest[0]) && '<' !in rest
    requires At(xml, p, "<" + name + rest)
    ensures OpenAt(xml, tag, p) <==> SameTag(name, tag)
    ensures !CloseAt(xml, tag, p)
    ensures Quiet(xml, tag, p + 1, p + 1 + |name| + |rest|)
  {
    hide Lower;
    TokenQuiet(xml, tag, p, "<" + name + rest);
    AtChar(xml, p, "<" + name + rest, 1);
    if CloseAt(xml, tag, p) {
      LowerCharAt(xml, p, CloseText(tag), 1);
    } else if OpenAt(xml, tag, p) {
      OpenTokenName(xml, tag, p, name, rest);
    } else if SameTag(name, tag) {
      OwnOpenToken(xml, tag, p, name, rest);
    }
  }

  /** Nothing starts inside a token, whose only opening bracket is its first character. */
  lemma {:induction false} TokenQuiet(xml: string, tag: string, p: nat, token: string)
    requires At(xml, p, token) && forall i :: 0 < i < |token| ==> token[i] != '<'
    ensures Quiet(xml, tag, p + 1, p + |token|)
  {
    forall k: nat | p + 1 <= k < p + |token|
      ensures !OpenAt(xml, tag, k) && !CloseAt(xml, tag, k)
    {
      AtChar(xml, p, token, k - p);
      NoBracketNoTag(xml, tag, k);
    }
  }

  lemma {:induction false} OpenTokenName(xml: string, tag: string, p: nat, name: string, rest: string)
    requires NameOk(name) && NameOk(tag) && rest != "" && IsDelimiter(rest[0])
    requires At(xml, p, "<" + name + rest) && OpenAt(xml, tag, p)
    ensures SameTag(name, tag)
  {
    hide Lower;
    var token := "<" + name + rest;
    if |tag| < |name| {
      AtChar(xml, p, token, 1 + |tag|);
    } else if |tag| > |name| {
      AtChar(xml, p, token, 1 + |name|);
      LowerCharAt(xml, p, "<" + tag, 1 + |name|);
    } else {
      forall i | 0 <= i < |name|
        ensures Lower(name)[i] == Lower(tag)[i]
      {
        AtChar(xml, p, token, 1 + i);
        LowerCharAt(xml, p, "<" + tag, 1 + i);
        LowerIndex(name, i);
        LowerIndex(tag, i);
      }
      SameTagIs(name, tag);
    }
  }

  lemma {:induction false} OwnOpenToken(xml: string, tag: string, p: nat, name: string, rest: string)
    requires SameTag(name, tag) && rest != "" && IsDelimiter(rest[0])
    requires At(xml, p, "<" + name + rest)
    ensures OpenAt(xml, tag, p)
  {
    hide Lower;
    var token := "<" + name + rest;
    AtChar(xml, p, token, 1 + |name|);
    forall i | 0 <= i < 1 + |tag|
      ensures Lower(xml)[p..p + 1 + |tag|][i] == Lower("<" + tag)[i]
    {
      AtChar(xml, p, token, i);
      LowerIndex(xml, p + i);
      LowerIndex("<" + tag, i);
      if i > 0 {
        LowerIndex(name, i - 1);
        LowerIndex(tag, i - 1);
      }
    }
    assert Lower(xml)[p..p + 1 + |tag|] == Lower("<" + tag);
  }

  /** A printed closing token is seen as the `tag` closing exactly when the names agree. */
  lemma {:induction false} CloseToken(xml: string, tag: string, p: nat, name: string)
    requires NameOk(name) && NameOk(tag) && At(xml, p, CloseText(name))
    ensures CloseAt(xml, tag, p) <==> SameTag(name, tag)
    ensures !OpenAt(xml, tag, p)
    ensures Quiet(xml, tag, p + 1, p + |name| + 3)
  {
    hide Lower;
    TokenQuiet(xml, tag, p, CloseText(name));
    AtChar(xml, p, CloseText(name), 1);
    if OpenAt(xml, tag, p) {
      LowerCharAt(xml, p, "<" + tag, 1);
    } else if CloseAt(xml, tag, p) {
      CloseTokenName(xml, tag, p, name);
    } else if SameTag(name, tag) {
      OwnCloseToken(xml, tag, p, name);
    }
  }

  lemma {:induction false} CloseTokenName(xml: string, tag: string, p: nat, name: string)
    requires NameOk(name) && NameOk(tag) && At(xml, p, CloseText(name)) && CloseAt(xml, tag, p)
    ensures SameTag(name, tag)
  {
    hide Lower;
    if |tag| < |name| {
      AtChar(xml, p, CloseText(name), 2 + |tag|);
      LowerCharAt(xml, p, CloseText(tag), 2 + |tag|);
    } else if |tag| > |name| {
      AtChar(xml, p, CloseText(name), 2 + |name|);
      LowerCharAt(xml, p, CloseText(tag), 2 + |name|);
    } else {
      forall i | 0 <= i < |name|
        ensures Lower(name)[i] == Lower(tag)[i]
      {
        AtChar(xml, p, CloseText(name), 2 + i);
        LowerCharAt(xml, p, CloseText(tag), 2 + i);
        LowerIndex(name, i);
        LowerIndex(tag, i);
      }
      SameTagIs(name, tag);
    }
  }

  lemma {:induction false} OwnCloseToken(xml: string, tag: string, p: nat, name: string)
    requires SameTag(name, tag) && At(xml, p, CloseText(name))
    ensures CloseAt(xml, tag, p)
  {
    hide Lower;
    var token := CloseText(name);
    forall i | 0 <= i < |token|
      ensures Lower(xml)[p..p + |token|][i] == Lower(CloseText(tag))[i]
    {
      AtChar(xml, p, token, i);
      LowerIndex(xml, p + i);
      LowerIndex(CloseText(tag), i);
      if 2 <= i < 2 + |tag| {
        LowerIndex(name, i - 2);
        LowerIndex(tag, i - 2);
      }
    }
    assert Lower(xml)[p..p + |token|] == Lower(CloseText(tag));
  }

  // ----- the scanner skips what it cannot see -----

  lemma {:induction false} OpenAtHere(xml: string, tag: string, k: nat)
    requires OpenAt(xml, tag, k)
    ensures k < |xml| && IndexOf(Lower(xml), Lower("<" + tag), k) == k
  {
  }

  /** Two occurrences of the needle `<tag` never overlap. */
  lemma {:induction false} NeedlesApart(xml: string, tag: string, start: nat, k: nat)
    requires '<' !in tag && At(Lower(xml), start, Lower("<" + tag)) && start < k < start + 1 + |tag|
    ensures !At(Lower(xml), k, Lower("<" + tag))
  {
    LowerCharAt(xml, start, "<" + tag, k - start);
    if At(Lower(xml), k, Lower("<" + tag)) {
      LowerCharAt(xml, k, "<" + tag, 0);
    }
  }

  lemma {:induction false} FindOpenSkip(xml: string, tag: string, i: nat, j: nat)
    requires '<' !in tag && i <= j
    requires forall k: nat :: i <= k < j ==> !OpenAt(xml, tag, k)
    ensures FindOpen(xml, tag, i) == FindOpen(xml, tag, j)
    decreases |xml| - i
  {
    hide IndexOf, Lower, LowerChar;
    var low, needle := Lower(xml), Lower("<" + tag);
    if i < |xml| {
      var start := IndexOf(low, needle, i);
      if 0 <= start < j {
        var after := start + 1 + |tag|;
        assert !OpenAt(xml, tag, start);
        assert FindOpen(xml, tag, i) == FindOpen(xml, tag, after);
        if after <= j {
          FindOpenSkip(xml, tag, after, j);
        } else {
          forall k: nat | j <= k < after
            ensures !At(low, k, needle)
          {
            NeedlesApart(xml, tag, start, k);
          }
          FindOpenSame(xml, tag, j, after);
        }
      } else {
        forall k: nat | i <= k < j
          ensures !At(low, k, needle)
        {
          if At(low, k, needle) {
            IndexOfLeast(low, needle, i, k);
          }
        }
        FindOpenSame(xml, tag, i, j);
      }
    }
  }

  /** `r` is the first opening of the tag at or after `from`, up to the next `>`; there is none only if
      every opening from there on lacks its `>`. */
  ghost predicate IsFirst(xml: string, tag: string, from: nat, r: Option<OpenTag>) {
    match r
    case None => forall k: nat :: from <= k && OpenAt(xml, tag, k) ==> IndexOf(xml, ">", k + 1 + |tag|) < 0
    case Some(open) =>
      && from <= open.start && OpenAt(xml, tag, open.start) && (forall k: nat :: from <= k < open.start ==> !OpenAt(xml, tag, k))
      && open.start + 2 + |tag| <= open.end <= |xml| && open.end - 1 == IndexOf(xml, ">", open.start + 1 + |tag|)
      && (open.selfClosing <==> xml[open.end - 2] == '/')
  }

  lemma {:induction false} FindOpenFirst(xml: string, tag: string, from: nat)
    requires '<' !in tag
    ensures IsFirst(xml, tag, from, FindOpen(xml, tag, from))
    decreases |xml| - from
  {
    hide IndexOf, Lower, FindOpen, At;
    if from >= |xml| {
      NothingBeyond(xml, tag, from);
    } else if OpenAt(xml, tag, from) {
      FindOpenHere(xml, tag, from);
      if IndexOf(xml, ">", from + 1 + |tag|) < 0 {
        forall k: nat | from <= k && OpenAt(xml, tag, k)
          ensures IndexOf(xml, ">", k + 1 + |tag|) < 0
        {
          Unclosed(xml, from + 1 + |tag|, k + 1 + |tag|);
        }
      }
    } else {
      FindOpenSkip(xml, tag, from, from + 1);
      FindOpenFirst(xml, tag, from + 1);
    }
  }

  lemma {:induction false} NothingBeyond(xml: string, tag: string, from: nat)
    requires from >= |xml|
    ensures FindOpen(xml, tag, from) == None && forall k: nat :: from <= k ==> !OpenAt(xml, tag, k)
  {
  }

  lemma {:induction false} FindOpenHere(xml: string, tag: string, p: nat)
    requires OpenAt(xml, tag, p)
    ensures var gt := IndexOf(xml, ">", p + 1 + |tag|);
      FindOpen(xml, tag, p) == if gt < 0 then None else Some(OpenTag(p, gt + 1, xml[gt - 1] == '/'))
  {
    OpenAtHere(xml, tag, p);
    hide Lower, At, IndexOf;
  }

  lemma {:induction false} Unclosed(xml: string, i: nat, k: nat)
    requires IndexOf(xml, ">", i) < 0 && i <= k
    ensures IndexOf(xml, ">", k) < 0
  {
    var later := IndexOf(xml, ">", k);
    if later >= 0 {
      IndexOfLeast(xml, ">", i, later);
    }
  }

  lemma {:induction false} FindOpenSame(xml: string, tag: string, i: nat, j: nat)
    requires i <= j
    requires forall k: nat :: i <= k < j ==> !At(Lower(xml), k, Lower("<" + tag))
    ensures FindOpen(xml, tag, i) == FindOpen(xml, tag, j)
  {
    hide IndexOf, Lower, LowerChar;
    IndexOfSkip(Lower(xml), Lower("<" + tag), i, j);
  }

  lemma {:induction false} MatchSkip(xml: string, tag: string, i: nat, j: nat, depth: nat)
    requires '<' !in tag && i <= j && depth >= 1 && Quiet(xml, tag, i, j)
    ensures MatchClose(xml, tag, i, depth) == MatchClose(xml, tag, j, depth)
  {
    hide FindOpen, Lower, IndexOf, At, OpenAt;
    FindOpenSkip(xml, tag, i, j);
    CloseSkip(xml, tag, i, j);
    CloseBeyond(xml, tag, j);
  }

  lemma {:induction false} CloseSkip(xml: string, tag: string, i: nat, j: nat)
    requires i <= j && Quiet(xml, tag, i, j)
    ensures IndexOf(Lower(xml), Lower("</" + tag + ">"), i) == IndexOf(Lower(xml), Lower("</" + tag + ">"), j)
  {
    hide IndexOf, Lower, At;
    assert CloseText(tag) == "</" + tag + ">";
    forall k: nat | i <= k < j
      ensures !At(Lower(xml), k, Lower("</" + tag + ">"))
    {
      assert !CloseAt(xml, tag, k);
    }
    IndexOfSkip(Lower(xml), Lower("</" + tag + ">"), i, j);
  }

  lemma {:induction false} CloseBeyond(xml: string, tag: string, j: nat)
    ensures j >= |xml| ==> IndexOf(Lower(xml), Lower("</" + tag + ">"), j) == -1
  {
    hide Lower;
  }

  // ----- the scanner sees its own tags -----

  lemma {:induction false} SeeOpen(xml: string, tag: string, p: nat, name: string, rest: string)
    requires NameOk(name) && NameOk(tag) && SameTag(name, tag)
    requires rest != "" && IsDelimiter(rest[0]) && '<' !in rest
    requires rest[|rest| - 1] == '>' && '>' !in rest[..|rest| - 1]
    requires At(xml, p, "<" + name + rest)
    ensures FindOpen(xml, tag, p)
         == Some(OpenTag(p, p + 1 + |name| + |rest|, ("<" + name + rest)[|name| + |rest| - 1] == '/'))
  {
    hide FindOpen, IndexOf, Lower, LowerChar;
    var token := "<" + name + rest;
    OpenToken(xml, tag, p, name, rest);
    forall i: nat | i < |token|
      ensures p + i < |xml| && xml[p + i] == token[i]
    {
      AtChar(xml, p, token, i);
    }
    var after, last := p + 1 + |tag|, p + |name| + |rest|;
    assert xml[last] == token[|name| + |rest|] == '>';
    forall k: nat | after <= k < last
      ensures !At(xml, k, ">")
    {
      assert xml[k] == token[k - p] == rest[..|rest| - 1][k - after];
    }
    IndexOfSkip(xml, ">", after, last);
    assert At(xml, last, ">");
    assert IndexOf(xml, ">", last) == last by { IndexOfLeast(xml, ">", last, last); }
    FindOpenHere(xml, tag, p);
  }

  lemma {:induction false} MatchCloseHere(xml: string, tag: string, p: nat, depth: nat)
    requires NameOk(tag) && depth >= 1 && CloseAt(xml, tag, p) && !OpenAt(xml, tag, p)
    ensures MatchClose(xml, tag, p, depth)
         == if depth == 1 then Some(p) else MatchClose(xml, tag, p + |tag| + 3, depth - 1)
  {
    hide FindOpen, Lower, IndexOf;
    FindOpenSkip(xml, tag, p, p + 1);
    IndexOfLeast(Lower(xml), Lower("</" + tag + ">"), p, p);
  }

  lemma {:induction false} MatchOpenHere(xml: string, tag: string, p: nat, depth: nat, open: OpenTag)
    requires depth >= 1 && FindOpen(xml, tag, p) == Some(open) && open.start == p && !CloseAt(xml, tag, p)
    requires open.selfClosing || exists k: nat :: p <= k && CloseAt(xml, tag, k)
    requires Quiet(xml, tag, p + 1, open.end)
    ensures MatchClose(xml, tag, p, depth)
         == MatchClose(xml, tag, open.end, if open.selfClosing then depth else depth + 1)
  {
    hide FindOpen, Lower, IndexOf;
    var low, close := Lower(xml), Lower("</" + tag + ">");
    var c := IndexOf(low, close, p);
    if c < 0 {
      forall k: nat | open.end <= k
        ensures !At(low, k, close)
      {
        if At(low, k, close) {
          IndexOfLeast(low, close, p, k);
        }
      }
      assert IndexOf(low, close, open.end) == -1;
    } else {
      assert CloseAt(xml, tag, c);
    }
  }

  // ----- printed documents are read back -----

  lemma {:induction false} ElemPieces(xml: string, p: nat, n: Node)
    requires n.Elem? && At(xml, p, Print(n))
    ensures var q := p + |OpenText(n.name, n.attrs)|; var c := q + |PrintAll(n.children)|;
      && At(xml, p, OpenText(n.name, n.attrs)) && At(xml, q, PrintAll(n.children))
      && At(xml, c, CloseText(n.name)) && p + |Print(n)| == c + |n.name| + 3
  {
    var inner := PrintAll(n.children);
    AtSplit(xml, p, OpenText(n.name, n.attrs), inner + CloseText(n.name));
    AtSplit(xml, p + |OpenText(n.name, n.attrs)|, inner, CloseText(n.name));
  }

  lemma {:induction false} EmptySeen(xml: string, tag: string, n: Node, p: nat)
    requires NameOk(tag) && n.Empty? && NodeOk(n) && At(xml, p, Print(n))
    ensures Quiet(xml, tag, p + 1, p + |Print(n)|) && !CloseAt(xml, tag, p)
    ensures if SameTag(n.name, tag) then FindOpen(xml, tag, p) == Some(OpenTag(p, p + |Print(n)|, true))
            else !OpenAt(xml, tag, p)
  {
    hide FindOpen, Lower, IndexOf;
    var rest := n.attrs + "/>";
    assert EmptyText(n.name, n.attrs) == "<" + n.name + rest;
    OpenToken(xml, tag, p, n.name, rest);
    if SameTag(n.name, tag) {
      SeeOpen(xml, tag, p, n.name, rest);
    }
  }

  /** What the scanner sees of a printed element whose body runs from `q` to `c`. */
  lemma {:induction false} ElemSeen(xml: string, tag: string, n: Node, p: nat, q: nat, c: nat)
    requires NameOk(tag) && n.Elem? && NodeOk(n) && At(xml, p, Print(n))
    requires q == p + |OpenText(n.name, n.attrs)| && c == q + |PrintAll(n.children)|
    ensures At(xml, q, PrintAll(n.children)) && c <= |xml| && xml[q..c] == PrintAll(n.children)
    ensures p + |Print(n)| == c + |n.name| + 3
    ensures !CloseAt(xml, tag, p) && Quiet(xml, tag, p + 1, q)
    ensures !OpenAt(xml, tag, c) && Quiet(xml, tag, c + 1, c + |n.name| + 3)
    ensures if SameTag(n.name, tag)
            then |n.name| == |tag| && FindOpen(xml, tag, p) == Some(OpenTag(p, q, false)) && CloseAt(xml, tag, c)
            else !OpenAt(xml, tag, p) && !CloseAt(xml, tag, c)
  {
    hide FindOpen, Lower, IndexOf;
    ElemPieces(xml, p, n);
    CloseToken(xml, tag, c, n.name);
    ElemOpenSeen(xml, tag, n, p, q);
  }

  lemma {:induction false} ElemOpenSeen(xml: string, tag: string, n: Node, p: nat, q: nat)
    requires NameOk(tag) && n.Elem? && NodeOk(n)
    requires At(xml, p, OpenText(n.name, n.attrs)) && q == p + |OpenText(n.name, n.attrs)|
    ensures !CloseAt(xml, tag, p) && Quiet(xml, tag, p + 1, q)
    ensures if SameTag(n.name, tag) then FindOpen(xml, tag, p) == Some(OpenTag(p, q, false))
            else !OpenAt(xml, tag, p)
  {
    hide FindOpen, Lower, IndexOf, At, PrintAll;
    var rest := n.attrs + ">";
    assert OpenText(n.name, n.attrs) == "<" + n.name + rest;
    OpenToken(xml, tag, p, n.name, rest);
    if SameTag(n.name, tag) {
      SeeOpen(xml, tag, p, n.name, rest);
    }
  }

  /** Inside an open `tag` element, a whole printed node leaves the nesting depth unchanged. */
  lemma {:induction false} MatchNode(xml: string, tag: string, n: Node, p: nat, depth: nat)
    requires NameOk(tag) && NodeOk(n) && depth >= 1 && At(xml, p, Print(n))
    ensures MatchClose(xml, tag, p, depth) == MatchClose(xml, tag, p + |Print(n)|, depth)
    decreases n, 1
  {
    hide FindOpen, MatchClose, Lower, IndexOf, At, Quiet;
    match n
    case Text(s) =>
      NoBracketQuiet(xml, tag, p, s);
      MatchSkip(xml, tag, p, p + |s|, depth);
    case Declaration(s) =>
      DeclarationQuiet(xml, tag, p, s);
      MatchSkip(xml, tag, p, p + |Print(n)|, depth);
    case Empty(name, attrs) => MatchEmpty(xml, tag, n, p, depth);
    case Elem(_, _, _) => MatchElem(xml, tag, n, p, depth);
  }

  lemma {:induction false} MatchEmpty(xml: string, tag: string, n: Node, p: nat, depth: nat)
    requires NameOk(tag) && n.Empty? && NodeOk(n) && depth >= 1 && At(xml, p, Print(n))
    ensures MatchClose(xml, tag, p, depth) == MatchClose(xml, tag, p + |Print(n)|, depth)
  {
    hide FindOpen, MatchClose, Lower, IndexOf, At;
    EmptySeen(xml, tag, n, p);
    if SameTag(n.name, tag) {
      MatchOpenHere(xml, tag, p, depth, FindOpen(xml, tag, p).value);
    } else {
      MatchSkip(xml, tag, p, p + |Print(n)|, depth);
    }
  }

  lemma {:induction false} MatchElem(xml: string, tag: string, n: Node, p: nat, depth: nat)
    requires NameOk(tag) && n.Elem? && NodeOk(n) && depth >= 1 && At(xml, p, Print(n))
    ensures MatchClose(xml, tag, p, depth) == MatchClose(xml, tag, p + |Print(n)|, depth)
    decreases n, 0
  {
    hide FindOpen, MatchClose, Lower, IndexOf, At, Print, PrintAll;
    var q := p + |OpenText(n.name, n.attrs)|;
    var c := q + |PrintAll(n.children)|;
    ElemSeen(xml, tag, n, p, q, c);
    if SameTag(n.name, tag) {
      MatchOpenHere(xml, tag, p, depth, OpenTag(p, q, false));
      MatchNodes(xml, tag, n.children, q, depth + 1);
      MatchCloseHere(xml, tag, c, depth + 1);
    } else {
      MatchSkip(xml, tag, p, q, depth);
      MatchNodes(xml, tag, n.children, q, depth);
      MatchSkip(xml, tag, c, c + |n.name| + 3, depth);
    }
  }

  lemma {:induction false} MatchNodes(xml: string, tag: string, ns: seq<Node>, p: nat, depth: nat)
    requires NameOk(tag) && AllOk(ns) && depth >= 1 && At(xml, p, PrintAll(ns))
    ensures MatchClose(xml, tag, p, depth) == MatchClose(xml, tag, p + |PrintAll(ns)|, depth)
    decreases ns
  {
    hide FindOpen, MatchClose, Lower, IndexOf;
    if ns != [] {
      AtSplit(xml, p, Print(ns[0]), PrintAll(ns[1..]));
      MatchNode(xml, tag, ns[0], p, depth);
      MatchNodes(xml, tag, ns[1..], p + |Print(ns[0])|, depth);
    }
  }

  lemma {:induction false} ExtractSkip(xml: string, tag: string, i: nat, j: nat)
    requires '<' !in tag && i <= j && Quiet(xml, tag, i, j)
    ensures Extract(xml, tag, i) == Extract(xml, tag, j)
  {
    hide FindOpen, MatchClose, Lower, IndexOf, At;
    FindOpenSkip(xml, tag, i, j);
  }

  lemma {:induction false} ExtractNode(xml: string, tag: string, n: Node, p: nat)
    requires NameOk(tag) && NodeOk(n) && At(xml, p, Print(n))
    ensures Extract(xml, tag, p) == Bodies(n, tag) + Extract(xml, tag, p + |Print(n)|)
    decreases n, 1
  {
    hide FindOpen, MatchClose, Lower, IndexOf, Extract, At, Quiet;
    match n
    case Text(s) =>
      NoBracketQuiet(xml, tag, p, s);
      ExtractSkip(xml, tag, p, p + |s|);
    case Declaration(s) =>
      DeclarationQuiet(xml, tag, p, s);
      ExtractSkip(xml, tag, p, p + |Print(n)|);
    case Empty(_, _) => ExtractEmpty(xml, tag, n, p);
    case Elem(_, _, _) => ExtractElem(xml, tag, n, p);
  }

  lemma {:induction false} ExtractEmpty(xml: string, tag: string, n: Node, p: nat)
    requires NameOk(tag) && n.Empty? && NodeOk(n) && At(xml, p, Print(n))
    ensures Extract(xml, tag, p) == Extract(xml, tag, p + |Print(n)|)
  {
    hide FindOpen, MatchClose, Lower, IndexOf, Extract, At;
    EmptySeen(xml, tag, n, p);
    if SameTag(n.name, tag) {
      ExtractTurn(xml, tag, p);
    } else {
      ExtractSkip(xml, tag, p, p + |Print(n)|);
    }
  }

  lemma {:induction false} ExtractElem(xml: string, tag: string, n: Node, p: nat)
    requires NameOk(tag) && n.Elem? && NodeOk(n) && At(xml, p, Print(n))
    ensures Extract(xml, tag, p) == Bodies(n, tag) + Extract(xml, tag, p + |Print(n)|)
    decreases n, 0
  {
    hide FindOpen, MatchClose, Lower, IndexOf, Extract, At, Print, PrintAll, BodiesAll;
    var q := p + |OpenText(n.name, n.attrs)|;
    var c := q + |PrintAll(n.children)|;
    ElemSeen(xml, tag, n, p, q, c);
    if SameTag(n.name, tag) {
      MatchNodes(xml, tag, n.children, q, 1);
      MatchCloseHere(xml, tag, c, 1);
      ExtractTurn(xml, tag, p);
    } else {
      ExtractSkip(xml, tag, p, q);
      ExtractNodes(xml, tag, n.children, q);
      ExtractSkip(xml, tag, c, c + |n.name| + 3);
    }
  }

  lemma {:induction false} ExtractNodes(xml: string, tag: string, ns: seq<Node>, p: nat)
    requires NameOk(tag) && AllOk(ns) && At(xml, p, PrintAll(ns))
    ensures Extract(xml, tag, p) == BodiesAll(ns, tag) + Extract(xml, tag, p + |PrintAll(ns)|)
    decreases ns
  {
    hide FindOpen, MatchClose, Lower, IndexOf, Extract, At;
    if ns != [] {
      AtSplit(xml, p, Print(ns[0]), PrintAll(ns[1..]));
      ExtractNode(xml, tag, ns[0], p);
      ExtractNodes(xml, tag, ns[1..], p + |Print(ns[0])|);
    }
  }

  lemma {:induction false} ExtractAtEnd(xml: string, tag: string, i: nat)
    requires i >= |xml|
    ensures Extract(xml, tag, i) == []
  {
  }

  /** On every printed document the extractor returns exactly the printed bodies of the
      outermost elements with the wanted name, in document order. */
  lemma {:induction false} ExtractPrinted(doc: seq<Node>, tag: string)
    requires NameOk(tag) && AllOk(doc)
    ensures Extract(PrintAll(doc), tag, 0) == BodiesAll(doc, tag)
  {
    hide FindOpen, MatchClose, Lower, IndexOf, Extract, PrintAll, BodiesAll;
    var xml := PrintAll(doc);
    assert xml[0..|xml|] == xml;
    ExtractNodes(xml, tag, doc, 0);
    ExtractAtEnd(xml, tag, |xml|);
  }

  /** A document that breaks off inside an element of that name gives the bodies before it. */
  lemma {:induction false} ExtractTruncated(doc: seq<Node>, open: Node, tag: string)
    requires NameOk(tag) && AllOk(doc)
    requires open.Elem? && NodeOk(open) && SameTag(open.name, tag)
    ensures Extract(PrintAll(doc) + (OpenText(open.name, open.attrs) + PrintAll(open.children)), tag, 0) == BodiesAll(doc, tag)
  {
    hide Extract, PrintAll, BodiesAll;
    var rest := OpenText(open.name, open.attrs) + PrintAll(open.children);
    var xml := PrintAll(doc) + rest;
    assert xml[0..|xml|] == xml;
    AtSplit(xml, 0, PrintAll(doc), rest);
    ExtractNodes(xml, tag, doc, 0);
    ExtractUnclosed(xml, tag, open, |PrintAll(doc)|);
  }

  lemma {:induction false} ExtractUnclosed(xml: string, tag: string, open: Node, p: nat)
    requires NameOk(tag) && open.Elem? && NodeOk(open) && SameTag(open.name, tag)
    requires var rest := OpenText(open.name, open.attrs) + PrintAll(open.children); At(xml, p, rest) && p + |rest| == |xml|
    ensures Extract(xml, tag, p) == []
  {
    hide FindOpen, MatchClose, Extract, PrintAll, Quiet, NameOk, AttrsOk;
    var start, inner := OpenText(open.name, open.attrs), PrintAll(open.children);
    AtSplit(xml, p, start, inner);
    ElemOpenSeen(xml, tag, open, p, p + |start|);
    MatchNodes(xml, tag, open.children, p + |start|, 1);
    MatchAtEnd(xml, tag, |xml|);
    ExtractTurn(xml, tag, p);
  }

  lemma {:induction false} MatchAtEnd(xml: string, tag: string, j: nat)
    requires j >= |xml|
    ensures MatchClose(xml, tag, j, 1) == None
  {
  }

  lemma {:induction false} ExtractBodies(xml: string, tag: string)
    ensures AreBodies(xml, tag, Extract(xml, tag, 0))
  {
    hide NameOk, AllOk, Extract, PrintAll, BodiesAll;
    forall doc | NameOk(tag) && AllOk(doc) && xml == PrintAll(doc)
      ensures Extract(xml, tag, 0) == BodiesAll(doc, tag)
    {
      ExtractPrinted(doc, tag);
    }
  }
}
