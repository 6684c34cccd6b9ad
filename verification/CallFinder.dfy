/** Call finding in the SAST service (`apps/scanner-sast/src/source.ts`): every identifier
    followed by an opening parenthesis outside quotes is reported with its argument text. */
module CallFinder {
  import opened Core
  import opened SourceScanner

  predicate IsWordStart(c: char) { 'A' <= c <= 'Z' || 'a' <= c <= 'z' || c == '_' }

  predicate IsWordChar(c: char) { IsWordStart(c) || '0' <= c <= '9' || c == '.' }

  function WordEnd(s: string, i: nat): (r: nat)
    requires i <= |s|
    ensures i <= r <= |s|
    decreases |s| - i
  {
    if i < |s| && IsWordChar(s[i]) then WordEnd(s, i + 1) else i
  }

  function SpaceEnd(s: string, i: nat): (r: nat)
    requires i <= |s|
    ensures i <= r <= |s|
    decreases |s| - i
  {
    if i < |s| && IsSpace(s[i]) then SpaceEnd(s, i + 1) else i
  }

  /** Parenthesis matching from offset `i` at nesting depth `depth`, skipping quotes. */
  function MatchFrom(s: string, i: nat, depth: int): (r: nat)
    ensures r <= |s| && (i <= |s| ==> i <= r)
    decreases |s| - i
  {
    if i >= |s| then |s|
    else if IsQuote(s[i]) then MatchFrom(s, SkipQuotedSpec(s, i), depth)
    else if s[i] == '(' then MatchFrom(s, i + 1, depth + 1)
    else if s[i] == ')' then if depth == 1 then i else MatchFrom(s, i + 1, depth - 1)
    else MatchFrom(s, i + 1, depth)
  }

  method MatchingParen(source: string, open: nat) returns (close: nat)
    ensures close == MatchFrom(source, open, 0)
  {
    var depth: int := 0;
    var i := open;
    while i < |source|
      invariant MatchFrom(source, i, depth) == MatchFrom(source, open, 0)
      decreases |source| - i
    {
      var current := source[i];
      if IsQuote(current) {
        i := SkipQuoted(source, i);
        continue;
      }
      if current == '(' {
        depth := depth + 1;
      } else if current == ')' {
        depth := depth - 1;
        if depth == 0 {
          return i;
        }
      }
      i := i + 1;
    }
    return |source|;
  }

  /** A reported call: the identifier starts at `index`, and its arguments are the text between
      the parenthesis at `open` and the offset `close`. */
  datatype CallHit = CallHit(name: string, qualified: string, args: string, index: nat, line: nat, open: nat, close: nat)

  /** The part of a dotted name after its last dot. */
  function LastSegment(qualified: string): string {
    if qualified == "" || qualified[|qualified| - 1] == '.' then ""
    else LastSegment(qualified[..|qualified| - 1]) + [qualified[|qualified| - 1]]
  }

  function HitAt(s: string, start: nat, end: nat, open: nat): CallHit
    requires start <= end <= open < |s| && s[open] == '('
  {
    var close := MatchFrom(s, open + 1, 1);
    CallHit(LastSegment(s[start..end]), s[start..end], s[open + 1..close], start, LineOf(s, start), open, close)
  }

  function CallsFrom(s: string, i: nat): seq<CallHit>
    decreases |s| - i
  {
    if i >= |s| then []
    else if IsQuote(s[i]) then CallsFrom(s, SkipQuotedSpec(s, i))
    else if IsWordStart(s[i]) then
      var end := WordEnd(s, i + 1);
      var open := SpaceEnd(s, end);
      if open < |s| && s[open] == '(' then [HitAt(s, i, end, open)] + CallsFrom(s, open + 1)
      else CallsFrom(s, end)
    else CallsFrom(s, i + 1)
  }

  method FindCalls(source: string) returns (hits: seq<CallHit>)
    ensures hits == CallsFrom(source, 0)
  {
    hide MatchFrom, LineOf, SkipQuotedSpec, LastSegment;
    hits := [];
    var i := 0;
    ghost var all := CallsFrom(source, 0);
    while i < |source|
      invariant hits + CallsFrom(source, i) == all
      decreases |source| - i
    {
      var current := source[i];
      if IsQuote(current) {
        i := SkipQuoted(source, i);
        continue;
      }
      if IsWordStart(current) {
        var start := i;
        i := i + 1;
        while i < |source| && IsWordChar(source[i])
          invariant start < i <= |source| && WordEnd(source, i) == WordEnd(source, start + 1)
          decreases |source| - i
        {
          i := i + 1;
        }
        var qualified := source[start..i];
        var j := i;
        while j < |source| && IsSpace(source[j])
          invariant i <= j <= |source| && SpaceEnd(source, j) == SpaceEnd(source, i)
          decreases |source| - j
        {
          j := j + 1;
        }
        if j < |source| && source[j] == '(' {
          var close := MatchingParen(source, j);
          MatchOpen(source, j, 0);
          var line := LineAt(source, start);
          hits := hits + [CallHit(LastSegment(qualified), qualified, source[j + 1..close], start, line, j, close)];
          i := j + 1;
          continue;
        }
        continue;
      }
      i := i + 1;
    }
  }

  lemma {:induction false} MatchOpen(s: string, open: nat, depth: int)
    requires open < |s| && s[open] == '('
    ensures MatchFrom(s, open, depth) == MatchFrom(s, open + 1, depth + 1)
  {
  }

  /** A closing parenthesis that closes nothing is passed over: without an opening one there is no match. */
  lemma {:induction false} NothingToMatch(s: string, i: nat, depth: int)
    requires depth <= 0 && forall k :: i <= k < |s| ==> s[k] != '('
    ensures MatchFrom(s, i, depth) == |s|
    decreases |s| - i
  {
    if i < |s| {
      if IsQuote(s[i]) {
        NothingToMatch(s, SkipQuotedSpec(s, i), depth);
      } else {
        NothingToMatch(s, i + 1, if s[i] == ')' then depth - 1 else depth);
      }
    }
  }

  // ----- matching against the grammar of balanced text -----

  /** The text from `i` to `c`, scanned from outside quotes, is balanced: a sequence of quoted
      regions, of bracketed balanced texts, and of characters that are not parentheses. */
  ghost predicate Balanced(s: string, i: nat, c: nat)
    requires c <= |s|
    decreases c - i
  {
    i == c ||
    (i < c &&
      if IsQuote(s[i]) then Balanced(s, SkipQuotedSpec(s, i), c)
      else if s[i] == '(' then exists m: nat :: i < m < c && s[m] == ')' && Balanced(s, i + 1, m) && Balanced(s, m + 1, c)
      else s[i] != ')' && Balanced(s, i + 1, c))
  }

  lemma {:induction false} MatchOverBalanced(s: string, i: nat, c: nat, d: int)
    requires d >= 1 && c <= |s| && Balanced(s, i, c)
    ensures MatchFrom(s, i, d) == MatchFrom(s, c, d)
    decreases c - i
  {
    hide QuoteEnd;
    if i < c {
      if IsQuote(s[i]) {
        MatchOverBalanced(s, SkipQuotedSpec(s, i), c, d);
      } else if s[i] == '(' {
        var m: nat :| i < m < c && s[m] == ')' && Balanced(s, i + 1, m) && Balanced(s, m + 1, c);
        MatchOverBalanced(s, i + 1, m, d + 1);
        MatchOverBalanced(s, m + 1, c, d);
      } else {
        MatchOverBalanced(s, i + 1, c, d);
      }
    }
  }

  lemma {:induction false} MatchIsBalanced(s: string, i: nat)
    requires MatchFrom(s, i, 1) < |s|
    ensures var c := MatchFrom(s, i, 1); s[c] == ')' && Balanced(s, i, c)
    decreases |s| - i
  {
    hide QuoteEnd;
    if IsQuote(s[i]) {
      MatchIsBalanced(s, SkipQuotedSpec(s, i));
    } else if s[i] == '(' {
      MatchLift(s, i + 1, 1, 1);
      MatchIsBalanced(s, i + 1);
      MatchIsBalanced(s, MatchFrom(s, i + 1, 1) + 1);
    } else if s[i] != ')' {
      MatchIsBalanced(s, i + 1);
    }
  }

  /** The parenthesis opened at `open` is matched by the one at `c` exactly when the text
      between them is balanced. */
  lemma {:induction false} MatchesBalanced(s: string, open: nat, c: nat)
    requires open < |s| && s[open] == '(' && open < c < |s|
    ensures MatchFrom(s, open, 0) == c <==> s[c] == ')' && Balanced(s, open + 1, c)
  {
    hide QuoteEnd;
    if s[c] == ')' && Balanced(s, open + 1, c) {
      MatchOverBalanced(s, open + 1, c, 1);
    } else if MatchFrom(s, open, 0) == c {
      MatchIsBalanced(s, open + 1);
    }
  }

  // ----- nesting -----

  /** Leaving depth `d + k` means first leaving depth `d`, then depth `k`. */
  lemma {:induction false} MatchLift(s: string, i: nat, d: int, k: int)
    requires d >= 1 && k >= 1
    ensures var c := MatchFrom(s, i, d);
      MatchFrom(s, i, d + k) == if c >= |s| then |s| else MatchFrom(s, c + 1, k)
    decreases |s| - i
  {
    hide QuoteEnd;
    if i < |s| {
      if IsQuote(s[i]) {
        MatchLift(s, SkipQuotedSpec(s, i), d, k);
      } else if s[i] == '(' {
        MatchLift(s, i + 1, d + 1, k);
      } else if s[i] == ')' {
        if d > 1 {
          MatchLift(s, i + 1, d - 1, k);
        }
      } else {
        MatchLift(s, i + 1, d, k);
      }
    }
  }

  lemma {:induction false} MatchOverWord(s: string, i: nat, d: int)
    requires i <= |s|
    ensures MatchFrom(s, i, d) == MatchFrom(s, WordEnd(s, i), d)
    decreases |s| - i
  {
    if i < |s| && IsWordChar(s[i]) {
      MatchOverWord(s, i + 1, d);
    }
  }

  lemma {:induction false} MatchOverSpace(s: string, i: nat, d: int)
    requires i <= |s|
    ensures MatchFrom(s, i, d) == MatchFrom(s, SpaceEnd(s, i), d)
    decreases |s| - i
  {
    if i < |s| && IsSpace(s[i]) {
      MatchOverSpace(s, i + 1, d);
    }
  }

  /** Every hit starts at or after `i`, and lies after offset `c` or has its arguments end by `c`. */
  ghost predicate Clear(hits: seq<CallHit>, i: nat, c: nat) {
    forall h :: h in hits ==> i <= h.index < h.open && (h.index > c || (h.open < c && h.close <= c))
  }

  lemma {:induction false} ClearCons(h: CallHit, rest: seq<CallHit>, i: nat, j: nat, c: nat)
    requires Clear(rest, j, c) && i <= j && i <= h.index < h.open < c && h.close <= c
    ensures Clear([h] + rest, i, c)
  {
    assert h in [h];
  }

  lemma {:induction false} ClearWiden(hits: seq<CallHit>, i: nat, j: nat, c: nat)
    requires Clear(hits, j, c) && i <= j
    ensures Clear(hits, i, c)
  {
  }

  /** Inside a parenthesis that closes at `c`, every later call is inside it or after it. */
  lemma {:induction false} CallsClear(s: string, i: nat, d: int)
    requires d >= 1
    ensures Clear(CallsFrom(s, i), i, MatchFrom(s, i, d))
    decreases |s| - i, 1
  {
    hide QuoteEnd, LineOf, WordEnd, SpaceEnd, SkipQuotedSpec, HitAt;
    var c := MatchFrom(s, i, d);
    if i < |s| {
      if IsQuote(s[i]) {
        var j := SkipQuotedSpec(s, i);
        CallsClear(s, j, d);
        ClearWiden(CallsFrom(s, i), i, j, c);
      } else if IsWordStart(s[i]) {
        CallsClearWord(s, i, d);
      } else if s[i] == ')' && d == 1 {
        CallsAfter(s, i + 1);
      } else {
        CallsClear(s, i + 1, if s[i] == '(' then d + 1 else if s[i] == ')' then d - 1 else d);
        ClearWiden(CallsFrom(s, i), i, i + 1, c);
      }
    }
  }

  lemma {:induction false} CallsClearWord(s: string, i: nat, d: int)
    requires d >= 1 && i < |s| && IsWordStart(s[i])
    ensures Clear(CallsFrom(s, i), i, MatchFrom(s, i, d))
    decreases |s| - i, 0
  {
    hide CallsFrom, Clear, HitAt, WordEnd, SpaceEnd, MatchFrom;
    var end := WordEnd(s, i + 1);
    var open := SpaceEnd(s, end);
    WordTurn(s, i);
    MatchWord(s, i, d);
    if open < |s| && s[open] == '(' {
      CallsClear(s, open + 1, d + 1);
      CallCloses(s, end, open, d);
      HitFields(s, i, end, open);
      ClearCons(HitAt(s, i, end, open), CallsFrom(s, open + 1), i, open + 1, MatchFrom(s, i, d));
    } else {
      CallsClear(s, end, d);
      ClearWiden(CallsFrom(s, end), i, end, MatchFrom(s, i, d));
    }
  }

  /** Matching from the end of a called word goes on inside its parenthesis, one level deeper, and does not
      end before that does. */
  lemma {:induction false} CallCloses(s: string, end: nat, open: nat, d: int)
    requires d >= 1 && end <= |s| && open == SpaceEnd(s, end) < |s| && s[open] == '('
    ensures MatchFrom(s, end, d) == MatchFrom(s, open + 1, d + 1) >= MatchFrom(s, open + 1, 1) > open
  {
    hide MatchFrom, SpaceEnd;
    MatchOverSpace(s, end, d);
    MatchOpen(s, open, d);
    MatchLift(s, open + 1, 1, d);
  }

  lemma {:induction false} HitFields(s: string, i: nat, end: nat, open: nat)
    requires i <= end <= open < |s| && s[open] == '('
    ensures var h := HitAt(s, i, end, open); h.index == i && h.open == open && h.close == MatchFrom(s, open + 1, 1)
  {
  }

  /** The scan at a word start. */
  lemma {:induction false} WordTurn(s: string, i: nat)
    requires i < |s| && IsWordStart(s[i])
    ensures var end := WordEnd(s, i + 1); var open := SpaceEnd(s, end);
      CallsFrom(s, i) == if open < |s| && s[open] == '(' then [HitAt(s, i, end, open)] + CallsFrom(s, open + 1)
                         else CallsFrom(s, end)
  {
    hide WordEnd, SpaceEnd, HitAt;
  }

  lemma {:induction false} MatchWord(s: string, i: nat, d: int)
    requires i < |s| && IsWordStart(s[i])
    ensures MatchFrom(s, i, d) == MatchFrom(s, WordEnd(s, i + 1), d)
  {
    MatchOverWord(s, i + 1, d);
  }

  lemma {:induction false} CallsAfter(s: string, i: nat)
    requires 0 < i <= |s|
    ensures Clear(CallsFrom(s, i), i - 1, i - 1)
    decreases |s| - (i - 1), 0
  {
    CallsClear(s, i, 1);
  }

  /** Calls are listed by strictly increasing offset, and the argument text of a later call
      either starts after that of an earlier one has ended or lies inside it. */
  ghost predicate Laminar(hits: seq<CallHit>) {
    forall a, b :: 0 <= a < b < |hits| ==>
      && hits[a].index < hits[a].open < hits[b].index < hits[b].open
      && (hits[b].index > hits[a].close || hits[b].close <= hits[a].close)
  }

  lemma {:induction false} LaminarCons(h: CallHit, rest: seq<CallHit>)
    requires Laminar(rest) && h.index < h.open && Clear(rest, h.open + 1, h.close)
    ensures Laminar([h] + rest)
  {
    var hits := [h] + rest;
    forall a, b | 0 <= a < b < |hits|
      ensures && hits[a].index < hits[a].open < hits[b].index < hits[b].open
              && (hits[b].index > hits[a].close || hits[b].close <= hits[a].close)
    {
      assert hits[b] == rest[b - 1] && hits[b] in rest;
      if a > 0 {
        assert hits[a] == rest[a - 1];
      }
    }
  }

  lemma {:induction false} CallsLaminar(s: string, i: nat)
    ensures Laminar(CallsFrom(s, i))
    decreases |s| - i
  {
    hide QuoteEnd, LineOf, LastSegment, WordEnd, SpaceEnd, MatchFrom;
    if i < |s| {
      if IsQuote(s[i]) {
        CallsLaminar(s, SkipQuotedSpec(s, i));
      } else if IsWordStart(s[i]) {
        var end := WordEnd(s, i + 1);
        var open := SpaceEnd(s, end);
        if open < |s| && s[open] == '(' {
          CallsLaminar(s, open + 1);
          CallsClear(s, open + 1, 1);
          LaminarCons(HitAt(s, i, end, open), CallsFrom(s, open + 1));
        } else {
          CallsLaminar(s, end);
        }
      } else {
        CallsLaminar(s, i + 1);
      }
    }
  }

  // ----- which calls are found -----

  /** A scan from `i` that steps over whole quoted regions comes to `k`. */
  ghost predicate Outside(s: string, i: nat, k: nat)
    requires k <= |s|
    decreases k - i
  {
    i == k || (i < k && Outside(s, if IsQuote(s[i]) then SkipQuotedSpec(s, i) else i + 1, k))
  }

  predicate Letter(c: char) { 'a' <= c <= 'z' || 'A' <= c <= 'Z' || c == '_' }

  predicate AllWord(s: string, i: nat, k: nat)
    requires k <= |s|
  {
    forall m :: i <= m < k ==> Letter(s[m]) || '0' <= s[m] <= '9' || s[m] == '.'
  }

  predicate AllSpace(s: string, i: nat, k: nat)
    requires k <= |s|
  {
    forall m :: i <= m < k ==> IsSpace(s[m])
  }

  /** No letter or underscore belongs to the run of word characters that ends before `k`. */
  ghost predicate FreshAt(s: string, k: nat)
    requires k <= |s|
  {
    forall j: nat :: j < k && AllWord(s, j, k) ==> !Letter(s[j])
  }

  /** `name` is what follows the last dot of `qualified`, or all of it. */
  predicate IsLastPart(name: string, qualified: string) {
    && '.' !in name && |name| <= |qualified| && qualified[|qualified| - |name|..] == name
    && (|name| < |qualified| ==> qualified[|qualified| - |name| - 1] == '.')
  }

  lemma {:induction false} LastSegmentIs(name: string, qualified: string)
    ensures name == LastSegment(qualified) <==> IsLastPart(name, qualified)
    decreases |qualified|
  {
    if qualified != "" {
      var n := |qualified| - 1;
      var c := qualified[n];
      assert qualified == qualified[..n] + [c];
      if c != '.' {
        LastSegmentIs(LastSegment(qualified[..n]), qualified[..n]);
        if IsLastPart(name, qualified) && name != "" {
          assert name[|name| - 1] == qualified[|qualified| - |name|..][|name| - 1] == c;
          assert qualified[..n][n - (|name| - 1)..] == name[..|name| - 1];
          LastSegmentIs(name[..|name| - 1], qualified[..n]);
        }
      } else if name != "" && |name| <= |qualified| {
        assert qualified[|qualified| - |name|..][|name| - 1] == c;
      }
    }
  }

  /** A word outside quotes, white space, and a parenthesis, with what is to be reported about them. */
  ghost predicate IsCall(s: string, h: CallHit) {
    && h.index < h.open < |s| && s[h.open] == '('
    && Outside(s, 0, h.index) && Letter(s[h.index]) && FreshAt(s, h.index)
    && h.close == MatchFrom(s, h.open, 0) && h.line == LineOf(s, h.index)
    && h.open < h.close <= |s| && h.args == s[h.open + 1..h.close]
    && IsLastPart(h.name, h.qualified) && h.index + |h.qualified| <= h.open
    && var end := h.index + |h.qualified|;
       h.qualified == s[h.index..end] && AllWord(s, h.index, end) && AllSpace(s, end, h.open)
  }

  lemma {:induction false} OutsideThen(s: string, i: nat, j: nat, k: nat)
    requires j <= |s| && k <= |s| && Outside(s, i, j)
    ensures i <= j && (j <= k ==> (Outside(s, i, k) <==> Outside(s, j, k)))
    decreases j - i
  {
    hide SkipQuotedSpec;
    if i < j {
      OutsideThen(s, if IsQuote(s[i]) then SkipQuotedSpec(s, i) else i + 1, j, k);
    }
  }

  lemma {:induction false} OutsideStep(s: string, i: nat, k: nat)
    requires i < |s| && k <= |s| && Outside(s, 0, i)
    ensures var next := if IsQuote(s[i]) then SkipQuotedSpec(s, i) else i + 1;
      i < k ==> (Outside(s, 0, k) <==> next <= k && Outside(s, next, k))
  {
    if i < k {
      OutsideThen(s, 0, i, k);
    }
  }

  lemma {:induction false} WordEndIs(s: string, i: nat, end: nat)
    requires i <= |s|
    ensures AllWord(s, i, WordEnd(s, i)) && (WordEnd(s, i) < |s| ==> !IsWordChar(s[WordEnd(s, i)]))
    ensures i <= end < |s| && AllWord(s, i, end) && !IsWordChar(s[end]) ==> WordEnd(s, i) == end
    decreases |s| - i
  {
    if i < |s| && IsWordChar(s[i]) {
      WordEndIs(s, i + 1, end);
    }
  }

  lemma {:induction false} SpaceEndIs(s: string, i: nat, end: nat)
    requires i <= |s|
    ensures AllSpace(s, i, SpaceEnd(s, i))
    ensures i <= end < |s| && AllSpace(s, i, end) && !IsSpace(s[end]) ==> SpaceEnd(s, i) == end
    decreases |s| - i
  {
    if i < |s| && IsSpace(s[i]) {
      SpaceEndIs(s, i + 1, end);
    }
  }

  /** The scan is not in the middle of a word. */
  ghost predicate Boundary(s: string, i: nat)
    requires i <= |s|
  {
    Outside(s, 0, i) && (i < |s| && IsWordChar(s[i]) ==> FreshAt(s, i))
  }

  lemma {:induction false} QuoteBoundary(s: string, i: nat)
    requires i < |s| && Boundary(s, i) && IsQuote(s[i])
    ensures Boundary(s, SkipQuotedSpec(s, i))
  {
    var next := SkipQuotedSpec(s, i);
    OutsideStep(s, i, next);
    if next < |s| {
      QuoteEndsQuoted(s, s[i], i + 1);
      assert forall j: nat :: j < next ==> !AllWord(s, j, next);
    }
  }

  lemma {:induction false} QuoteEndsQuoted(s: string, quote: char, i: nat)
    requires i > 0 && QuoteEnd(s, quote, i) < |s|
    ensures s[QuoteEnd(s, quote, i) - 1] == quote
    decreases |s| - i
  {
    if quote != '`' && s[i] == '\\' {
      QuoteEndsQuoted(s, quote, i + 2);
    } else if s[i] != quote {
      QuoteEndsQuoted(s, quote, i + 1);
    }
  }

  lemma {:induction false} CharBoundary(s: string, i: nat)
    requires i < |s| && Boundary(s, i) && !IsQuote(s[i]) && !IsWordStart(s[i])
    ensures Boundary(s, i + 1)
  {
    OutsideStep(s, i, i + 1);
    forall j: nat | j < i + 1 && AllWord(s, j, i + 1)
      ensures !IsWordStart(s[j])
    {
      if j < i {
        assert IsWordChar(s[i]) && AllWord(s, j, i);
      }
    }
  }

  lemma {:induction false} OutsidePlain(s: string, i: nat, k: nat)
    requires i <= k <= |s| && forall m :: i <= m < k ==> !IsQuote(s[m])
    ensures Outside(s, i, k)
    decreases k - i
  {
    if i < k {
      OutsidePlain(s, i + 1, k);
    }
  }

  lemma {:induction false} PlainBoundary(s: string, i: nat, k: nat)
    requires i <= k <= |s| && Boundary(s, i) && forall m :: i <= m < k ==> !IsQuote(s[m])
    ensures Outside(s, 0, k)
  {
    OutsidePlain(s, i, k);
    OutsideThen(s, 0, i, k);
  }

  /** From a word start the scan goes on at the end of the word, or after the parenthesis of a call. */
  lemma {:induction false} WordBoundary(s: string, i: nat)
    requires i < |s| && Boundary(s, i) && IsWordStart(s[i])
    ensures var end := WordEnd(s, i + 1); var open := SpaceEnd(s, end);
      && Boundary(s, end) && (open < |s| && s[open] == '(' ==> Boundary(s, open + 1))
  {
    hide FreshAt, Outside;
    var end := WordEnd(s, i + 1);
    var open := SpaceEnd(s, end);
    WordEndIs(s, i + 1, 0);
    SpaceEndIs(s, end, 0);
    assert forall m :: i <= m < end ==> IsWordChar(s[m]);
    PlainBoundary(s, i, end);
    if open < |s| && s[open] == '(' {
      assert forall m :: end <= m < open ==> IsSpace(s[m]);
      PlainBoundary(s, i, open + 1);
      FreshAfter(s, open + 1);
    }
  }

  lemma {:induction false} FreshAfter(s: string, k: nat)
    requires 0 < k <= |s| && !IsWordChar(s[k - 1])
    ensures FreshAt(s, k)
  {
    assert forall j: nat :: j < k ==> !AllWord(s, j, k);
  }

  /** The call at a word start is the one that is reported. */
  lemma {:induction false} CallHere(s: string, i: nat, h: CallHit)
    requires i < |s| && IsWordStart(s[i]) && h.index == i && IsCall(s, h)
    ensures var end := WordEnd(s, i + 1); var open := SpaceEnd(s, end);
      open < |s| && s[open] == '(' && h == HitAt(s, i, end, open)
  {
    LastSegmentIs(h.name, h.qualified);
    hide FreshAt, Outside, MatchFrom, LineOf, LastSegment, WordEnd, SpaceEnd, IsLastPart;
    var last := i + |h.qualified|;
    assert s[last] == '(' || IsSpace(s[last]);
    AllWordTail(s, i, last);
    hide AllWord, Letter;
    WordEndIs(s, i + 1, last);
    SpaceEndIs(s, last, h.open);
    MatchOpen(s, h.open, 0);
  }

  lemma {:induction false} AllWordTail(s: string, i: nat, k: nat)
    requires i < k < |s| && AllWord(s, i, k)
    ensures AllWord(s, i + 1, k) && (s[k] == '(' || IsSpace(s[k]) ==> !IsWordChar(s[k]))
  {
  }

  /** What is reported at a word start is a call. */
  lemma {:induction false} HitIsCall(s: string, i: nat)
    requires i < |s| && Boundary(s, i) && IsWordStart(s[i])
    requires var open := SpaceEnd(s, WordEnd(s, i + 1)); open < |s| && s[open] == '('
    ensures var end := WordEnd(s, i + 1); var h := HitAt(s, i, end, SpaceEnd(s, end)); h.index == i && IsCall(s, h)
  {
    hide FreshAt, Outside, MatchFrom, LineOf, LastSegment, WordEnd, SpaceEnd;
    var end := WordEnd(s, i + 1);
    var open := SpaceEnd(s, end);
    WordEndIs(s, i + 1, 0);
    SpaceEndIs(s, end, 0);
    LastSegmentIs(LastSegment(s[i..end]), s[i..end]);
    MatchOpen(s, open, 0);
  }

  /** No call starts inside a word, or between a word and its parenthesis. */
  lemma {:induction false} NoCallInWord(s: string, i: nat, h: CallHit)
    requires i < |s| && Boundary(s, i) && IsWordStart(s[i]) && IsCall(s, h) && i < h.index
    ensures var end := WordEnd(s, i + 1); var open := SpaceEnd(s, end);
      h.index >= end && (open < |s| && s[open] == '(' ==> h.index > open)
  {
    hide Outside, MatchFrom, LineOf, LastSegment, QuoteEnd, WordEnd, SpaceEnd;
    var end := WordEnd(s, i + 1);
    var open := SpaceEnd(s, end);
    WordEndIs(s, i + 1, 0);
    SpaceEndIs(s, end, 0);
  }

  lemma {:induction false} CallsFromExactly(s: string, i: nat, h: CallHit)
    requires i <= |s| && Boundary(s, i)
    ensures h in CallsFrom(s, i) <==> i <= h.index && IsCall(s, h)
    decreases |s| - i
  {
    hide Boundary, IsCall, QuoteEnd, WordEnd, SpaceEnd, HitAt, SkipQuotedSpec;
    if i == |s| {
      assert IsCall(s, h) ==> h.index < |s| by { CallWithin(s, h); }
    } else if IsQuote(s[i]) {
      var next := SkipQuotedSpec(s, i);
      QuoteBoundary(s, i);
      CallsFromExactly(s, next, h);
      NoCallBefore(s, i, h);
    } else if IsWordStart(s[i]) {
      var end := WordEnd(s, i + 1);
      var open := SpaceEnd(s, end);
      WordBoundary(s, i);
      if IsCall(s, h) && h.index == i {
        CallHere(s, i, h);
      } else if IsCall(s, h) && i < h.index {
        NoCallInWord(s, i, h);
      }
      if open < |s| && s[open] == '(' {
        HitIsCall(s, i);
      }
      CallsFromExactly(s, if open < |s| && s[open] == '(' then open + 1 else end, h);
    } else {
      CharBoundary(s, i);
      CallsFromExactly(s, i + 1, h);
      NoCallBefore(s, i, h);
    }
  }

  lemma {:induction false} CallWithin(s: string, h: CallHit)
    ensures IsCall(s, h) ==> h.index < |s|
  {
  }

  lemma {:induction false} NoCallBefore(s: string, i: nat, h: CallHit)
    requires i < |s| && Boundary(s, i) && !IsWordStart(s[i])
    ensures IsCall(s, h) && i <= h.index ==> h.index >= if IsQuote(s[i]) then SkipQuotedSpec(s, i) else i + 1
  {
    if IsCall(s, h) && i < h.index {
      OutsideStep(s, i, h.index);
    }
  }

  /** The hits are exactly the calls of the text: every word outside quotes that is followed by a
      parenthesis, with its arguments up to the matching one. */
  lemma {:induction false} HitsExact(s: string, h: CallHit)
    ensures h in CallsFrom(s, 0) <==> IsCall(s, h)
  {
    CallsFromExactly(s, 0, h);
  }
}
