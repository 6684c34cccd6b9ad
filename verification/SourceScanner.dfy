/** The source scanner of the SAST service (`apps/scanner-sast/src/source.ts`): comment
    blanking, quote skipping, parenthesis matching and call finding by index loops.

    The functions give each loop's result from an arbitrary offset; the methods are the loops. */
module SourceScanner {
  import opened Core

  datatype Language = JavaScript | TypeScript | Python

  predicate IsQuote(c: char) { c == '"' || c == '\'' || c == '`' }

  // ----- lines -----

  /** The one-based line of an offset. */
  function LineOf(source: string, index: nat): nat {
    if index == 0 || source == "" then 1
    else if index > |source| then LineOf(source, |source|)
    else LineOf(source, index - 1) + (if source[index - 1] == '\n' then 1 else 0)
  }

  /** The newlines before an offset. */
  ghost function Newlines(source: string, index: nat): set<nat> {
    set k: nat | k < index && k < |source| && source[k] == '\n'
  }

  lemma {:induction false} NewlinesStep(source: string, index: nat)
    requires 0 < index <= |source|
    ensures |Newlines(source, index)| == |Newlines(source, index - 1)| + if source[index - 1] == '\n' then 1 else 0
  {
    var before := Newlines(source, index - 1);
    if source[index - 1] == '\n' {
      assert Newlines(source, index) == before + {index - 1};
    } else {
      assert Newlines(source, index) == before;
    }
  }

  lemma {:induction false} LineCounts(source: string, index: nat)
    ensures LineOf(source, index) == 1 + |Newlines(source, index)|
    decreases index
  {
    if index == 0 || source == "" {
      assert Newlines(source, index) == {};
    } else if index > |source| {
      assert Newlines(source, index) == Newlines(source, |source|);
      LineCounts(source, |source|);
    } else {
      hide Newlines;
      NewlinesStep(source, index);
      LineCounts(source, index - 1);
    }
  }

  method LineAt(source: string, index: nat) returns (line: nat)
    ensures line == LineOf(source, index) == 1 + |Newlines(source, index)|
  {
    LineCounts(source, index);
    line := 1;
    var limit := if index <= |source| then index else |source|;
    for i := 0 to limit
      invariant line == LineOf(source, i)
    {
      if source[i] == '\n' {
        line := line + 1;
      }
    }
  }

  // ----- quoted regions -----

  /** The offset just past the closing quote, scanning from `i`; the end of text if unterminated. */
  function QuoteEnd(s: string, quote: char, i: nat): (r: nat)
    ensures r <= |s| && (i <= |s| ==> i <= r) && (i < |s| ==> i < r)
    decreases |s| - i
  {
    if i >= |s| then |s|
    else if quote != '`' && s[i] == '\\' then QuoteEnd(s, quote, i + 2)
    else if s[i] == quote then i + 1
    else QuoteEnd(s, quote, i + 1)
  }

  function SkipQuotedSpec(s: string, start: nat): (r: nat)
    requires start < |s|
    ensures start < r <= |s|
  {
    QuoteEnd(s, s[start], start + 1)
  }

  method SkipQuoted(source: string, start: nat) returns (end: nat)
    requires start < |source|
    ensures end == SkipQuotedSpec(source, start)
  {
    var quote := source[start];
    var i := start + 1;
    while i < |source|
      invariant QuoteEnd(source, quote, i) == SkipQuotedSpec(source, start)
      decreases |source| - i
    {
      if quote != '`' && source[i] == '\\' {
        i := i + 2;
        continue;
      }
      if source[i] == quote {
        return i + 1;
      }
      i := i + 1;
    }
    return |source|;
  }

  // ----- blanking comments -----

  datatype Mode = Code | LineComment | BlockComment | Quoted(quote: char)

  /** What one step of a comment stripper emits, and where and how it goes on. */
  datatype Step = Step(piece: string, next: nat, mode: Mode)

  predicate Opens(s: string, i: nat, second: char) {
    i + 1 < |s| && s[i] == '/' && s[i + 1] == second
  }

  predicate BlockCloses(s: string, i: nat) {
    i + 1 < |s| && s[i] == '*' && s[i + 1] == '/'
  }

  function LineStep(s: string, i: nat): Step
    requires i < |s|
  {
    if s[i] == '\n' then Step("", i, Code) else Step(" ", i + 1, LineComment)
  }

  /** An unterminated block comment gives its last character back to the code scan. */
  function BlockStep(s: string, i: nat): Step
    requires i < |s|
  {
    if BlockCloses(s, i) then Step("  ", i + 2, Code)
    else if i + 1 < |s| then Step(if s[i] == '\n' then "\n" else " ", i + 1, BlockComment)
    else Step("", i, Code)
  }

  function JsCodeStep(s: string, i: nat): Step
    requires i < |s|
  {
    if IsQuote(s[i]) then var end := SkipQuotedSpec(s, i); Step(s[i..end], end, Code)
    else if Opens(s, i, '/') then Step("  ", i + 2, LineComment)
    else if Opens(s, i, '*') then Step("  ", i + 2, BlockComment)
    else Step([s[i]], i + 1, Code)
  }

  function PyQuotedStep(s: string, i: nat, quote: char): Step
    requires i < |s|
  {
    if s[i] == '\\' && i + 1 < |s| then Step([s[i], s[i + 1]], i + 2, Quoted(quote))
    else Step([s[i]], i + 1, if s[i] == quote && s[i] != '\\' then Code else Quoted(quote))
  }

  function PyCodeStep(s: string, i: nat): Step
    requires i < |s|
  {
    if s[i] == '\'' || s[i] == '"' then Step([s[i]], i + 1, Quoted(s[i]))
    else if s[i] == '#' then Step(" ", i + 1, LineComment)
    else Step([s[i]], i + 1, Code)
  }

  function LexStep(s: string, python: bool, i: nat, mode: Mode): Step
    requires i < |s|
  {
    match mode
    case LineComment => LineStep(s, i)
    case BlockComment => BlockStep(s, i)
    case Quoted(quote) => PyQuotedStep(s, i, quote)
    case Code => if python then PyCodeStep(s, i) else JsCodeStep(s, i)
  }

  lemma {:induction false} LexStepOk(s: string, python: bool, i: nat, mode: Mode)
    requires i < |s|
    ensures var st := LexStep(s, python, i, mode);
      && i <= st.next <= |s| && |st.piece| == st.next - i
      && (st.next > i || (mode != Code && st.mode == Code))
      && forall k :: i <= k < st.next ==> Blanks(s[k], st.piece[k - i])
  {
    hide QuoteEnd;
  }

  /** A character may only change to a space, and a newline may not change. */
  predicate Blanks(before: char, after: char) {
    after == before || (after == ' ' && before != '\n')
  }

  /** The stripped text from offset `i`. */
  function StripFrom(s: string, python: bool, i: nat, mode: Mode): (r: string)
    requires i <= |s|
    ensures |r| == |s| - i
    decreases |s| - i, mode != Code
  {
    if i == |s| then "" else
    LexStepOk(s, python, i, mode);
    var st := LexStep(s, python, i, mode);
    st.piece + StripFrom(s, python, st.next, st.mode)
  }

  function Strip(s: string, language: Language): (r: string)
    ensures |r| == |s|
  {
    StripFrom(s, language == Python, 0, Code)
  }

  /** A loop that has emitted `all[..i]` and takes one step has emitted everything before `st.next`. */
  lemma {:induction false} StripRest(s: string, python: bool, i: nat, mode: Mode, all: string)
    requires i < |s| == |all| && StripFrom(s, python, i, mode) == all[i..]
    ensures var st := LexStep(s, python, i, mode);
      && i <= st.next <= |s| && all[..st.next] == all[..i] + st.piece
      && StripFrom(s, python, st.next, st.mode) == all[st.next..]
  {
    LexStepOk(s, python, i, mode);
    assert all == all[..i] + all[i..];
  }

  lemma {:induction false} StripOne(s: string, python: bool, i: nat, mode: Mode)
    requires i < |s|
    ensures var st := LexStep(s, python, i, mode);
      i <= st.next <= |s| && StripFrom(s, python, i, mode) == st.piece + StripFrom(s, python, st.next, st.mode)
  {
    LexStepOk(s, python, i, mode);
  }

  /** Inside comments the next character is blanked. */
  lemma {:induction false} RemarkRest(s: string, python: bool, i: nat, mode: Mode, all: string)
    requires i < |s| == |all| && StripFrom(s, python, i, mode) == all[i..]
    requires (mode == LineComment && s[i] != '\n') || (mode == BlockComment && i + 1 < |s| && !BlockCloses(s, i))
    ensures all[..i + 1] == all[..i] + [if s[i] == '\n' then '\n' else ' ']
    ensures StripFrom(s, python, i + 1, mode) == all[i + 1..]
  {
    hide StripFrom;
    StripRest(s, python, i, mode, all);
  }

  lemma {:induction false} ShowsStripped(s: string, language: Language, out: string)
    requires out == StripFrom(s, language == Python, 0, Code)
    ensures Blanked(s, language == Python, out)
  {
    hide Blanked;
    StripExactly(s, language, out);
  }

  method StripJsCommentsPreserve(source: string) returns (out: string)
    ensures out == StripFrom(source, false, 0, Code) && Blanked(source, false, out)
  {
    hide StripFrom, QuoteEnd, Blanked;
    out := "";
    var i := 0;
    ghost var all := StripFrom(source, false, 0, Code);
    while i < |source|
      invariant i <= |source| && out == all[..i] && StripFrom(source, false, i, Code) == all[i..]
      decreases |source| - i
    {
      var current := source[i];
      StripRest(source, false, i, Code, all);
      if IsQuote(current) {
        var end := SkipQuoted(source, i);
        out := out + source[i..end];
        i := end;
        continue;
      }
      if current == '/' && i + 1 < |source| && source[i + 1] == '/' {
        i := i + 2;
        out := out + "  ";
        while i < |source| && source[i] != '\n'
          invariant i <= |source| && out == all[..i] && StripFrom(source, false, i, LineComment) == all[i..]
          decreases |source| - i
        {
          RemarkRest(source, false, i, LineComment, all);
          out := out + " ";
          i := i + 1;
        }
        StripEnd(source, false, i, LineComment);
        continue;
      }
      if current == '/' && i + 1 < |source| && source[i + 1] == '*' {
        out := out + "  ";
        i := i + 2;
        while i + 1 < |source| && !(source[i] == '*' && source[i + 1] == '/')
          invariant i <= |source| && out == all[..i] && StripFrom(source, false, i, BlockComment) == all[i..]
          decreases |source| - i
        {
          RemarkRest(source, false, i, BlockComment, all);
          out := out + [if source[i] == '\n' then '\n' else ' '];
          i := i + 1;
        }
        StripEnd(source, false, i, BlockComment);
        if i + 1 < |source| {
          StripRest(source, false, i, BlockComment, all);
          out := out + "  ";
          i := i + 2;
        }
        continue;
      }
      out := out + [current];
      i := i + 1;
    }
    ShowsStripped(source, JavaScript, out);
  }

  /** Where a comment yields to the code scan, both have the same text left to emit. */
  lemma {:induction false} StripEnd(s: string, python: bool, i: nat, mode: Mode)
    requires i <= |s|
    ensures (i < |s| ==> LexStep(s, python, i, mode) == Step("", i, Code))
        ==> StripFrom(s, python, i, mode) == StripFrom(s, python, i, Code)
  {
  }

  method StripPyCommentsPreserve(source: string) returns (out: string)
    ensures out == StripFrom(source, true, 0, Code) && Blanked(source, true, out)
  {
    hide StripFrom, Blanked;
    out := "";
    var i := 0;
    var quote: Option<char> := None;
    ghost var all := StripFrom(source, true, 0, Code);
    while i < |source|
      invariant i <= |source| && out == all[..i]
      invariant StripFrom(source, true, i, if quote.Some? then Quoted(quote.value) else Code) == all[i..]
      decreases |source| - i
    {
      var current := source[i];
      StripRest(source, true, i, if quote.Some? then Quoted(quote.value) else Code, all);
      if quote.Some? {
        out := out + [current];
        if current == '\\' {
          i := i + 1;
          if i < |source| {
            out := out + [source[i]];
            i := i + 1;
          }
          continue;
        }
        if quote == Some(current) {
          quote := None;
        }
        i := i + 1;
        continue;
      }
      if current == '\'' || current == '"' {
        quote := Some(current);
        out := out + [current];
        i := i + 1;
        continue;
      }
      if current == '#' {
        StripHash(source, i);
        while i < |source| && source[i] != '\n'
          invariant i <= |source| && out == all[..i] && StripFrom(source, true, i, LineComment) == all[i..]
          decreases |source| - i
        {
          RemarkRest(source, true, i, LineComment, all);
          out := out + " ";
          i := i + 1;
        }
        StripEnd(source, true, i, LineComment);
        continue;
      }
      out := out + [current];
      i := i + 1;
    }
    ShowsStripped(source, Python, out);
  }

  lemma {:induction false} StripHash(s: string, i: nat)
    requires i < |s| && s[i] == '#'
    ensures StripFrom(s, true, i, Code) == StripFrom(s, true, i, LineComment)
  {
  }

  method StripCommentsPreserve(source: string, language: Language) returns (out: string)
    ensures out == Strip(source, language) && Blanked(source, language == Python, out)
  {
    if language == Python {
      out := StripPyCommentsPreserve(source);
    } else {
      out := StripJsCommentsPreserve(source);
    }
  }

  // ----- the regions of a text -----

  /** What a stretch of text is: one character of code, a quoted region, or a comment. */
  datatype Region = Plain | Quote | LineRemark | BlockRemark

  /** How many backslashes stand directly before offset `k`, after offset `start`. */
  function Backslashes(s: string, start: nat, k: nat): nat
    requires k <= |s|
  {
    if k > start + 1 && s[k - 1] == '\\' then 1 + Backslashes(s, start, k - 1) else 0
  }

  /** The quote at `k` ends the region that the same quote opens at `start`: it is not escaped.  A
      template has no escapes. */
  predicate Ends(s: string, start: nat, k: nat)
    requires start < k < |s|
  {
    s[k] == s[start] && (s[start] == '`' || Backslashes(s, start, k) % 2 == 0)
  }

  predicate OpensQuote(s: string, python: bool, i: nat)
    requires i < |s|
  {
    s[i] == '\'' || s[i] == '"' || (s[i] == '`' && !python)
  }

  predicate OpensLine(s: string, python: bool, i: nat)
    requires i < |s|
  {
    if python then s[i] == '#' else i + 1 < |s| && s[i] == '/' && s[i + 1] == '/'
  }

  predicate OpensBlock(s: string, python: bool, i: nat)
    requires i < |s|
  {
    !python && i + 1 < |s| && s[i] == '/' && s[i + 1] == '*'
  }

  predicate StarSlash(s: string, k: nat) { k + 1 < |s| && s[k] == '*' && s[k + 1] == '/' }

  /** The text from `i` to `j` is one region.  A line comment ends before the first newline, a block
      comment with the first closing mark, a quoted region with the first quote that is not escaped; an
      unterminated block comment ends one character before the text does, the others with the text. */
  ghost predicate IsRegion(s: string, python: bool, i: nat, j: nat, r: Region) {
    i < j <= |s| &&
    match r
    case Plain => j == i + 1 && !OpensQuote(s, python, i) && !OpensLine(s, python, i) && !OpensBlock(s, python, i)
    case LineRemark =>
      OpensLine(s, python, i) && (forall k :: i <= k < j ==> s[k] != '\n') && (j == |s| || s[j] == '\n')
    case BlockRemark =>
      && OpensBlock(s, python, i)
      && if j >= i + 4 && StarSlash(s, j - 2) then forall k :: i + 2 <= k < j - 2 ==> !StarSlash(s, k)
         else j == (if i + 2 == |s| then |s| else |s| - 1) && forall k: nat :: i + 2 <= k ==> !StarSlash(s, k)
    case Quote =>
      && OpensQuote(s, python, i)
      && if j >= i + 2 && Ends(s, i, j - 1) then forall k :: i < k < j - 1 ==> !Ends(s, i, k)
         else j == |s| && forall k :: i < k < |s| ==> !Ends(s, i, k)
  }

  /** The text from `i` on is cut into regions at `cuts`. */
  ghost predicate Regions(s: string, python: bool, i: nat, cuts: seq<nat>, kinds: seq<Region>) {
    && |cuts| == |kinds| + 1 && cuts[0] == i && cuts[|kinds|] == |s|
    && forall n :: 0 <= n < |kinds| ==> IsRegion(s, python, cuts[n], cuts[n + 1], kinds[n])
  }

  /** A comment is blanked but for its newlines; everything else is kept. */
  function Shown(c: char, r: Region): char {
    if (r == LineRemark || r == BlockRemark) && c != '\n' then ' ' else c
  }

  function Image(s: string, i: nat, j: nat, r: Region): (image: string)
    requires i <= j <= |s|
    ensures |image| == j - i && forall k :: i <= k < j ==> image[k - i] == Shown(s[k], r)
  {
    seq(j - i, k requires 0 <= k < j - i => Shown(s[i + k], r))
  }

  /** One more character in front of an image. */
  lemma {:induction false} ImageGrows(s: string, i: nat, j: nat, r: Region, rest: string)
    requires i < j <= |s|
    ensures [Shown(s[i], r)] + (Image(s, i + 1, j, r) + rest) == Image(s, i, j, r) + rest
  {
    assert Image(s, i, j, r) == [Shown(s[i], r)] + Image(s, i + 1, j, r);
  }

  /** Two more. */
  lemma {:induction false} ImageGrowsTwice(s: string, i: nat, j: nat, r: Region, rest: string)
    requires i + 2 <= j <= |s|
    ensures [Shown(s[i], r), Shown(s[i + 1], r)] + (Image(s, i + 2, j, r) + rest) == Image(s, i, j, r) + rest
  {
    assert Image(s, i, j, r) == [Shown(s[i], r), Shown(s[i + 1], r)] + Image(s, i + 2, j, r);
  }

  lemma {:induction false} ImageCopies(s: string, i: nat, j: nat, r: Region)
    requires i <= j <= |s| && (r == Plain || r == Quote)
    ensures Image(s, i, j, r) == s[i..j]
  {
  }

  // ----- each region is stripped as a whole -----

  lemma {:induction false} LineRest(s: string, python: bool, i: nat, j: nat)
    requires i <= j <= |s| && (forall k :: i <= k < j ==> s[k] != '\n') && (j == |s| || s[j] == '\n')
    ensures StripFrom(s, python, i, LineComment) == Image(s, i, j, LineRemark) + StripFrom(s, python, j, Code)
    decreases j - i
  {
    hide StripFrom, Image;
    if i < j {
      StripOne(s, python, i, LineComment);
      LineRest(s, python, i + 1, j);
      ImageGrows(s, i, j, LineRemark, StripFrom(s, python, j, Code));
    } else {
      StripEnd(s, python, i, LineComment);
      assert Image(s, i, i, LineRemark) == "";
    }
  }

  lemma {:induction false} BlockRest(s: string, python: bool, i: nat, j: nat)
    requires i <= j <= |s| && (forall k :: i <= k < j ==> !StarSlash(s, k))
    requires StarSlash(s, j) || j == |s| - 1 || i == j == |s|
    ensures var end := if StarSlash(s, j) then j + 2 else j;
      StripFrom(s, python, i, BlockComment) == Image(s, i, end, BlockRemark) + StripFrom(s, python, end, Code)
    decreases j - i
  {
    hide StripFrom, Image;
    var end := if StarSlash(s, j) then j + 2 else j;
    if i < |s| {
      StripOne(s, python, i, BlockComment);
    }
    if i < j {
      assert !StarSlash(s, i);
      BlockRest(s, python, i + 1, j);
      ImageGrows(s, i, end, BlockRemark, StripFrom(s, python, end, Code));
    } else if StarSlash(s, j) {
      assert Image(s, j + 2, j + 2, BlockRemark) == "";
      ImageGrowsTwice(s, j, end, BlockRemark, StripFrom(s, python, end, Code));
    } else {
      StripEnd(s, python, i, BlockComment);
      assert Image(s, i, i, BlockRemark) == "";
    }
  }

  lemma {:induction false} LineStripped(s: string, python: bool, i: nat, j: nat)
    requires IsRegion(s, python, i, j, LineRemark)
    ensures StripFrom(s, python, i, Code) == Image(s, i, j, LineRemark) + StripFrom(s, python, j, Code)
  {
    hide StripFrom, Image;
    StripOne(s, python, i, Code);
    if python {
      LineRest(s, python, i + 1, j);
      ImageGrows(s, i, j, LineRemark, StripFrom(s, python, j, Code));
    } else {
      LineRest(s, python, i + 2, j);
      ImageGrowsTwice(s, i, j, LineRemark, StripFrom(s, python, j, Code));
    }
  }

  lemma {:induction false} BlockStripped(s: string, python: bool, i: nat, j: nat)
    requires IsRegion(s, python, i, j, BlockRemark)
    ensures StripFrom(s, python, i, Code) == Image(s, i, j, BlockRemark) + StripFrom(s, python, j, Code)
  {
    hide StripFrom, Image;
    StripOne(s, python, i, Code);
    BlockRest(s, python, i + 2, if j >= i + 4 && StarSlash(s, j - 2) then j - 2 else j);
    ImageGrowsTwice(s, i, j, BlockRemark, StripFrom(s, python, j, Code));
  }

  /** The scan of a quoted region stops where the region ends. */
  lemma {:induction false} QuoteEndIs(s: string, start: nat, i: nat)
    requires start < i <= |s| + 1 && start < |s| && IsQuote(s[start])
    requires s[start] != '`' && i <= |s| ==> Backslashes(s, start, i) % 2 == 0
    requires forall k :: start < k < i && k < |s| ==> !Ends(s, start, k)
    ensures var j := QuoteEnd(s, s[start], i);
      if j >= i + 1 && Ends(s, start, j - 1) then forall k :: start < k < j - 1 ==> !Ends(s, start, k)
      else j == |s| && forall k :: start < k < |s| ==> !Ends(s, start, k)
    decreases |s| - i
  {
    if i < |s| {
      if s[start] != '`' && s[i] == '\\' {
        QuoteEndIs(s, start, i + 2);
      } else if s[i] != s[start] {
        QuoteEndIs(s, start, i + 1);
      }
    }
  }

  /** A quoted region has one end. */
  lemma {:induction false} QuoteRegionEnd(s: string, python: bool, i: nat, j: nat)
    requires IsRegion(s, python, i, j, Quote)
    ensures j == QuoteEnd(s, s[i], i + 1)
  {
    hide QuoteEnd;
    QuoteEndIs(s, i, i + 1);
  }

  lemma {:induction false} PyQuoteRest(s: string, quote: char, i: nat)
    requires i <= |s| && quote != '`' && quote != '\\'
    ensures var j := QuoteEnd(s, quote, i);
      StripFrom(s, true, i, Quoted(quote)) == s[i..j] + StripFrom(s, true, j, Code)
    decreases |s| - i
  {
    hide StripFrom;
    var j := QuoteEnd(s, quote, i);
    if i < |s| {
      StripOne(s, true, i, Quoted(quote));
      var st := LexStep(s, true, i, Quoted(quote));
      if st.mode == Code {
        assert s[i..j] == [s[i]];
      } else {
        PyQuoteRest(s, quote, st.next);
        assert st.piece == s[i..st.next];
        Prefixed(s, i, st.next, j, StripFrom(s, true, j, Code));
      }
    } else {
      StripNothing(s, true, Quoted(quote));
      StripNothing(s, true, Code);
    }
  }

  lemma {:induction false} StripNothing(s: string, python: bool, mode: Mode)
    ensures StripFrom(s, python, |s|, mode) == ""
  {
  }

  lemma {:induction false} Prefixed(s: string, i: nat, m: nat, j: nat, rest: string)
    requires i <= m <= j <= |s|
    ensures s[i..m] + (s[m..j] + rest) == s[i..j] + rest
  {
    assert s[i..j] == s[i..m] + s[m..j];
  }

  lemma {:induction false} QuoteStripped(s: string, python: bool, i: nat, j: nat)
    requires IsRegion(s, python, i, j, Quote)
    ensures StripFrom(s, python, i, Code) == Image(s, i, j, Quote) + StripFrom(s, python, j, Code)
  {
    QuoteRegionEnd(s, python, i, j);
    ImageCopies(s, i, j, Quote);
    hide StripFrom, Image, QuoteEnd, IsRegion;
    StripOne(s, python, i, Code);
    if python {
      PyQuoteRest(s, s[i], i + 1);
      Prefixed(s, i, i + 1, j, StripFrom(s, python, j, Code));
    }
  }

  /** Stripping code that begins with a region: the region's image, and the rest stripped as code. */
  lemma {:induction false} RegionStripped(s: string, python: bool, i: nat, j: nat, r: Region)
    requires IsRegion(s, python, i, j, r)
    ensures StripFrom(s, python, i, Code) == Image(s, i, j, r) + StripFrom(s, python, j, Code)
  {
    hide QuoteEnd, StripFrom, Image;
    match r
    case Plain =>
      StripOne(s, python, i, Code);
      ImageCopies(s, i, j, Plain);
    case LineRemark => LineStripped(s, python, i, j);
    case BlockRemark => BlockStripped(s, python, i, j);
    case Quote => QuoteStripped(s, python, i, j);
  }

  // ----- the whole text -----

  /** `out` shows the text region by region: comments blank but for their newlines, all else as it is. */
  ghost predicate ShownBy(s: string, cuts: seq<nat>, kinds: seq<Region>, out: string)
    requires |cuts| == |kinds| + 1
  {
    |out| == |s| && forall n, k :: 0 <= n < |kinds| && cuts[n] <= k < cuts[n + 1] && k < |s| ==> out[k] == Shown(s[k], kinds[n])
  }

  /** `out` is the text with its comments blanked. */
  ghost predicate Blanked(s: string, python: bool, out: string) {
    exists cuts, kinds :: Regions(s, python, 0, cuts, kinds) && ShownBy(s, cuts, kinds, out)
  }

  lemma {:induction false} RegionsTail(s: string, python: bool, i: nat, cuts: seq<nat>, kinds: seq<Region>)
    requires Regions(s, python, i, cuts, kinds) && kinds != []
    ensures Regions(s, python, cuts[1], cuts[1..], kinds[1..])
  {
    hide IsRegion;
    forall n | 0 <= n < |kinds[1..]|
      ensures IsRegion(s, python, cuts[1..][n], cuts[1..][n + 1], kinds[1..][n])
    {
      assert IsRegion(s, python, cuts[n + 1], cuts[n + 2], kinds[n + 1]);
    }
  }

  /** The stripped text shows the text region by region. */
  lemma {:induction false} StripShows(s: string, python: bool, i: nat, cuts: seq<nat>, kinds: seq<Region>, n: nat, k: nat)
    requires Regions(s, python, i, cuts, kinds) && n < |kinds| && cuts[n] <= k < cuts[n + 1]
    ensures i <= k < |s| && StripFrom(s, python, i, Code)[k - i] == Shown(s[k], kinds[n])
    decreases |kinds|
  {
    hide StripFrom, IsRegion;
    var j := cuts[1];
    assert IsRegion(s, python, i, j, kinds[0]);
    RegionOrder(s, python, i, j, kinds[0]);
    RegionStripped(s, python, i, j, kinds[0]);
    if n > 0 {
      RegionsTail(s, python, i, cuts, kinds);
      StripShows(s, python, j, cuts[1..], kinds[1..], n - 1, k);
    }
  }

  lemma {:induction false} RegionOrder(s: string, python: bool, i: nat, j: nat, r: Region)
    requires IsRegion(s, python, i, j, r)
    ensures i < j <= |s|
  {
  }

  /** Every text can be cut into regions. */
  lemma {:induction false} RegionsExist(s: string, python: bool, i: nat) returns (cuts: seq<nat>, kinds: seq<Region>)
    requires i <= |s|
    ensures Regions(s, python, i, cuts, kinds)
    decreases |s| - i
  {
    hide IsRegion;
    if i == |s| {
      cuts, kinds := [i], [];
    } else {
      var j, r := NextRegion(s, python, i);
      RegionOrder(s, python, i, j, r);
      cuts, kinds := RegionsExist(s, python, j);
      var cuts', kinds' := [i] + cuts, [r] + kinds;
      forall n | 0 <= n < |kinds'|
        ensures IsRegion(s, python, cuts'[n], cuts'[n + 1], kinds'[n])
      {
        if n > 0 {
          assert IsRegion(s, python, cuts[n - 1], cuts[n], kinds[n - 1]);
        }
      }
      cuts, kinds := cuts', kinds';
    }
  }

  lemma {:induction false} NextRegion(s: string, python: bool, i: nat) returns (j: nat, r: Region)
    requires i < |s|
    ensures IsRegion(s, python, i, j, r)
  {
    if OpensQuote(s, python, i) {
      QuoteEndIs(s, i, i + 1);
      j, r := QuoteEnd(s, s[i], i + 1), Quote;
    } else if OpensLine(s, python, i) {
      j := LineEndAfter(s, i);
      r := LineRemark;
    } else if OpensBlock(s, python, i) {
      j := BlockEndAfter(s, i + 2);
      r := BlockRemark;
    } else {
      j, r := i + 1, Plain;
    }
  }

  lemma {:induction false} LineEndAfter(s: string, i: nat) returns (j: nat)
    requires i <= |s|
    ensures i <= j <= |s| && (forall k :: i <= k < j ==> s[k] != '\n') && (j == |s| || s[j] == '\n')
    decreases |s| - i
  {
    if i == |s| || s[i] == '\n' {
      j := i;
    } else {
      j := LineEndAfter(s, i + 1);
    }
  }

  lemma {:induction false} BlockEndAfter(s: string, i: nat) returns (j: nat)
    requires i <= |s|
    ensures j <= |s| && if j >= i + 2 && StarSlash(s, j - 2) then forall k :: i <= k < j - 2 ==> !StarSlash(s, k)
            else j == (if i == |s| then |s| else |s| - 1) && forall k: nat :: i <= k ==> !StarSlash(s, k)
    decreases |s| - i
  {
    if StarSlash(s, i) {
      j := i + 2;
    } else if i + 1 >= |s| {
      j := i;
    } else {
      j := BlockEndAfter(s, i + 1);
    }
  }

  /** Stripping is exactly the blanking of comments: of all texts only its result shows the regions of
      the text, which every text has. */
  lemma {:induction false} StripExactly(s: string, language: Language, out: string)
    ensures out == Strip(s, language) <==> Blanked(s, language == Python, out)
  {
    hide StripFrom, IsRegion;
    var python := language == Python;
    var cuts, kinds := RegionsExist(s, python, 0);
    assert ShownBy(s, cuts, kinds, Strip(s, language)) by {
      forall n | 0 <= n < |kinds|
        ensures forall k :: cuts[n] <= k < cuts[n + 1] && k < |s| ==> Strip(s, language)[k] == Shown(s[k], kinds[n])
      {
        forall k | cuts[n] <= k < cuts[n + 1] && k < |s|
          ensures Strip(s, language)[k] == Shown(s[k], kinds[n])
        {
          StripShows(s, python, 0, cuts, kinds, n, k);
        }
      }
    }
    if Blanked(s, python, out) {
      var cuts, kinds :| Regions(s, python, 0, cuts, kinds) && ShownBy(s, cuts, kinds, out);
      forall k | 0 <= k < |s|
        ensures out[k] == Strip(s, language)[k]
      {
        var n := RegionAt(s, python, 0, cuts, kinds, k);
        StripShows(s, python, 0, cuts, kinds, n, k);
      }
    }
  }

  lemma {:induction false} RegionAt(s: string, python: bool, i: nat, cuts: seq<nat>, kinds: seq<Region>, k: nat) returns (n: nat)
    requires Regions(s, python, i, cuts, kinds) && i <= k < |s|
    ensures n < |kinds| && cuts[n] <= k < cuts[n + 1]
    decreases |kinds|
  {
    hide IsRegion;
    if k < cuts[1] {
      n := 0;
    } else {
      RegionsTail(s, python, i, cuts, kinds);
      var m := RegionAt(s, python, cuts[1], cuts[1..], kinds[1..], k);
      n := m + 1;
    }
  }

  lemma {:induction false} RemarkChanges(s: string, python: bool, i: nat, j: nat, r: Region)
    requires IsRegion(s, python, i, j, r) && r in {LineRemark, BlockRemark}
    ensures Shown(s[i], r) != s[i]
  {
  }

  /** A text is left as it is exactly when none of its regions is a comment. */
  lemma {:induction false} UnchangedIffNoRemark(s: string, language: Language, cuts: seq<nat>, kinds: seq<Region>)
    requires Regions(s, language == Python, 0, cuts, kinds)
    ensures Strip(s, language) == s <==> LineRemark !in kinds && BlockRemark !in kinds
  {
    hide StripFrom, IsRegion;
    var python := language == Python;
    if n: nat :| n < |kinds| && kinds[n] in {LineRemark, BlockRemark} {
      assert IsRegion(s, python, cuts[n], cuts[n + 1], kinds[n]);
      RegionOrder(s, python, cuts[n], cuts[n + 1], kinds[n]);
      RemarkChanges(s, python, cuts[n], cuts[n + 1], kinds[n]);
      StripShows(s, python, 0, cuts, kinds, n, cuts[n]);
    } else {
      forall k | 0 <= k < |s|
        ensures Strip(s, language)[k] == s[k]
      {
        var n := RegionAt(s, python, 0, cuts, kinds, k);
        StripShows(s, python, 0, cuts, kinds, n, k);
      }
    }
  }

  // ----- what stripping keeps -----

  lemma {:induction false} StripFromBlanks(s: string, python: bool, i: nat, mode: Mode)
    requires i <= |s|
    ensures forall k :: i <= k < |s| ==> Blanks(s[k], StripFrom(s, python, i, mode)[k - i])
    decreases |s| - i, mode != Code
  {
    hide LexStep;
    if i < |s| {
      LexStepOk(s, python, i, mode);
      var st := LexStep(s, python, i, mode);
      StripFromBlanks(s, python, st.next, st.mode);
      forall k | i <= k < |s|
        ensures Blanks(s[k], StripFrom(s, python, i, mode)[k - i])
      {
        if k >= st.next {
          assert StripFrom(s, python, i, mode)[k - i] == StripFrom(s, python, st.next, st.mode)[k - st.next];
        }
      }
    }
  }

  /** Stripping keeps the length, changes a character only to a space, and touches no newline. */
  lemma {:induction false} StripBlanks(s: string, language: Language)
    ensures |Strip(s, language)| == |s|
    ensures forall k :: 0 <= k < |s| ==> Blanks(s[k], Strip(s, language)[k])
  {
    StripFromBlanks(s, language == Python, 0, Code);
    forall k | 0 <= k < |s|
      ensures Blanks(s[k], Strip(s, language)[k])
    {
      assert Blanks(s[k], StripFrom(s, language == Python, 0, Code)[k - 0]);
    }
  }

  /** So an offset is on the same line before and after stripping. */
  lemma {:induction false} LinesKept(s: string, language: Language, index: nat)
    ensures LineOf(Strip(s, language), index) == LineOf(s, index)
    decreases index
  {
    hide Strip;
    StripBlanks(s, language);
    if 0 < index <= |s| {
      assert Blanks(s[index - 1], Strip(s, language)[index - 1]);
      LinesKept(s, language, index - 1);
    } else if index > |s| && s != "" {
      LinesKept(s, language, |s|);
    }
  }

  predicate InComment(mode: Mode) { mode == LineComment || mode == BlockComment }

  /** No comment opens anywhere in the rest of the text. */
  predicate CommentFree(s: string, python: bool, i: nat, mode: Mode)
    requires i <= |s|
    decreases |s| - i, mode != Code
  {
    i == |s| ||
    (LexStepOk(s, python, i, mode);
     var st := LexStep(s, python, i, mode);
     !InComment(st.mode) && CommentFree(s, python, st.next, st.mode))
  }

  /** Outside comments a step copies what it reads, unless it opens a comment. */
  lemma {:induction false} StepCopies(s: string, python: bool, i: nat, mode: Mode)
    requires i < |s| && !InComment(mode)
    ensures var st := LexStep(s, python, i, mode);
      && i <= st.next <= |s|
      && if InComment(st.mode) then st.piece != "" && st.piece[0] == ' ' != s[i] else st.piece == s[i..st.next]
  {
    hide QuoteEnd;
    LexStepOk(s, python, i, mode);
  }

  /** Text is unchanged exactly when it has no comment. */
  lemma {:induction false} UnchangedIffCommentFree(s: string, python: bool, i: nat, mode: Mode)
    requires i <= |s| && !InComment(mode)
    ensures StripFrom(s, python, i, mode) == s[i..] <==> CommentFree(s, python, i, mode)
    decreases |s| - i, mode != Code
  {
    hide LexStep;
    if i < |s| {
      LexStepOk(s, python, i, mode);
      StepCopies(s, python, i, mode);
      var st := LexStep(s, python, i, mode);
      var r := StripFrom(s, python, i, mode);
      if InComment(st.mode) {
        assert r[0] == ' ' != s[i..][0];
      } else {
        UnchangedIffCommentFree(s, python, st.next, st.mode);
        assert s[i..] == st.piece + s[st.next..];
        assert r[st.next - i..] == StripFrom(s, python, st.next, st.mode);
      }
    }
  }

  lemma {:induction false} QuoteEndAgrees(s: string, t: string, quote: char, i: nat)
    requires |s| == |t| && forall k :: i <= k < QuoteEnd(s, quote, i) ==> t[k] == s[k]
    ensures QuoteEnd(t, quote, i) == QuoteEnd(s, quote, i)
    decreases |s| - i
  {
    if i < |s| {
      assert t[i] == s[i];
      if quote != '`' && s[i] == '\\' {
        QuoteEndAgrees(s, t, quote, i + 2);
      } else if s[i] != quote {
        QuoteEndAgrees(s, t, quote, i + 1);
      }
    }
  }

  /** Scanning the stripped text meets no comment, whatever comment the original scan was in. */
  lemma {:induction false} OutputCommentFree(s: string, python: bool, i: nat, mode: Mode, out: string)
    requires i <= |s| == |out| && out[i..] == StripFrom(s, python, i, mode)
    ensures CommentFree(out, python, i, if InComment(mode) then Code else mode)
    decreases |s| - i, mode != Code
  {
    hide QuoteEnd, LexStep;
    if i < |s| {
      LexStepOk(s, python, i, mode);
      var st := LexStep(s, python, i, mode);
      StripRest(s, python, i, mode, out);
      OutputCommentFree(s, python, st.next, st.mode, out);
      OutputStep(s, python, i, mode, out);
    }
  }

  /** One step of the scan of the stripped text. */
  lemma {:induction false} OutputStep(s: string, python: bool, i: nat, mode: Mode, out: string)
    requires i < |s| == |out| && out[i..] == StripFrom(s, python, i, mode)
    requires var st := LexStep(s, python, i, mode);
      && i <= st.next <= |s| && out[..st.next] == out[..i] + st.piece
      && CommentFree(out, python, st.next, if InComment(st.mode) then Code else st.mode)
    ensures CommentFree(out, python, i, if InComment(mode) then Code else mode)
  {
    hide QuoteEnd, StripFrom, CommentFree;
    var st := LexStep(s, python, i, mode);
    forall k | i <= k < st.next
      ensures out[k] == st.piece[k - i]
    {
      assert out[k] == out[..st.next][k];
    }
    if InComment(mode) || InComment(st.mode) {
      if st.next == i + 2 {
        PlainStep(out, python, i + 1);
      }
      if st.next > i {
        PlainStep(out, python, i);
      }
    } else {
      SameStep(s, python, i, mode, out);
      CommentFreeStep(out, python, i, mode);
    }
  }

  lemma {:induction false} CommentFreeStep(s: string, python: bool, i: nat, mode: Mode)
    requires i < |s|
    requires var st := LexStep(s, python, i, mode);
      !InComment(st.mode) && st.next <= |s| && CommentFree(s, python, st.next, st.mode)
    ensures CommentFree(s, python, i, mode)
  {
    hide LexStep;
  }

  /** Outside comments the stripped text is scanned with the same step as the original. */
  lemma {:induction false} SameStep(s: string, python: bool, i: nat, mode: Mode, out: string)
    requires i < |s| == |out| && out[i..] == StripFrom(s, python, i, mode)
    requires var st := LexStep(s, python, i, mode);
      && !InComment(mode) && !InComment(st.mode) && i <= st.next <= |s|
      && forall k :: i <= k < st.next ==> out[k] == st.piece[k - i]
    ensures LexStep(out, python, i, mode) == LexStep(s, python, i, mode)
  {
    hide QuoteEnd, StripFrom;
    var st := LexStep(s, python, i, mode);
    if i + 1 < |s| {
      StripFromBlanks(s, python, i, mode);
      assert Blanks(s[i + 1], StripFrom(s, python, i, mode)[i + 1 - i]);
      assert out[i..][1] == out[i + 1];
    }
    assert out[i] == st.piece[0] == s[i];
    if mode == Code && !python && IsQuote(s[i]) {
      forall k | i + 1 <= k < st.next
        ensures out[k] == s[k]
      {
      }
      QuoteEndAgrees(s, out, s[i], i + 1);
      assert out[i..st.next] == s[i..st.next];
    }
  }

  lemma {:induction false} PlainStep(out: string, python: bool, i: nat)
    requires i < |out| && (out[i] == ' ' || out[i] == '\n') && CommentFree(out, python, i + 1, Code)
    ensures CommentFree(out, python, i, Code)
  {
    hide QuoteEnd;
  }

  /** Stripped text has no comment left; stripping changes nothing else and nothing more. */
  lemma {:induction false} StripTwice(s: string, language: Language)
    ensures CommentFree(Strip(s, language), language == Python, 0, Code)
    ensures Strip(Strip(s, language), language) == Strip(s, language)
    ensures Strip(s, language) == s <==> CommentFree(s, language == Python, 0, Code)
  {
    hide StripFrom, CommentFree;
    var python, out := language == Python, Strip(s, language);
    assert out[0..] == out && s[0..] == s;
    OutputCommentFree(s, python, 0, Code, out);
    UnchangedIffCommentFree(out, python, 0, Code);
    UnchangedIffCommentFree(s, python, 0, Code);
  }
}
