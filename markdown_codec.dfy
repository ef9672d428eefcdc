/** The per-node rules of the Markdown codec
    (apps/desktop/src/editor/markdownCodec.ts): how a code block, a heading,
    an ordered list, a hard break, a link and inline code are written, what
    attributes the parser takes from markdown-it's tokens, and the final
    trimming. The block layout of the serializer (`wrapBlock`, `renderList`,
    `closeBlock`) and markdown-it's tokenizer are not part of this model. */
module MarkdownCodec {
  import opened Wrappers
  import opened Text
  import Sorting

  /** An inline child of a block node. */
  datatype InlineNode =
    | TextNode(text: string)
    | HardBreakNode
    /** Any other inline node, such as an image. */
    | OtherNode

  // ----- Backtick runs -----

  predicate IsTicks(s: string) {
    forall i :: 0 <= i < |s| ==> s[i] == '`'
  }

  /** `s` holds `k` backticks in a row from position `i`. */
  predicate TicksAt(s: string, i: nat, k: nat) {
    i + k <= |s| && forall j :: i <= j < i + k ==> s[j] == '`'
  }

  /** The number of backticks `s` starts with. */
  function LeadingTicks(s: string): (n: nat)
    ensures n <= |s| && TicksAt(s, 0, n)
    ensures n < |s| ==> s[n] != '`'
    ensures |s| > 0 && s[0] == '`' ==> n >= 1
  {
    if s != [] && s[0] == '`' then 1 + LeadingTicks(s[1..]) else 0
  }

  /** The lengths of the maximal runs of backticks in `s`, in order: the
      matches of the global pattern `` /`+/g ``. */
  function TickRuns(s: string): (r: seq<nat>)
    decreases |s|
  {
    if s == [] then []
    else if s[0] != '`' then TickRuns(s[1..])
    else
      var n := LeadingTicks(s);
      [n] + TickRuns(s[n..])
  }

  function MaxOf(xs: seq<nat>): (m: nat) {
    if xs == [] then 0
    else
      var rest := MaxOf(xs[1..]);
      if xs[0] > rest then xs[0] else rest
  }

  /** The longest run of backticks (0 when there is none). */
  function MaxTick(s: string): nat {
    MaxOf(TickRuns(s))
  }

  lemma {:induction false} MaxOfBounds(xs: seq<nat>)
    ensures forall x :: x in xs ==> x <= MaxOf(xs)
    ensures xs != [] ==> MaxOf(xs) in xs
  {
    if xs != [] {
      MaxOfBounds(xs[1..]);
      assert xs == [xs[0]] + xs[1..];
    }
  }

  lemma TicksShift(s: string, d: nat, i: nat, k: nat)
    requires d <= i && d <= |s| && TicksAt(s, i, k)
    ensures TicksAt(s[d..], i - d, k)
  {
    forall j | i - d <= j < i - d + k
      ensures s[d..][j] == '`'
    {
      assert s[d..][j] == s[j + d];
    }
  }

  /** When no run is longer than `m`, the text never holds `m + 1` backticks in a row. */
  lemma {:induction false} RunsBoundTicks(s: string, m: nat, i: nat)
    requires forall r :: r in TickRuns(s) ==> r <= m
    ensures !TicksAt(s, i, m + 1)
    decreases |s|
  {
    if s == [] {
    } else if s[0] != '`' {
      if i > 0 {
        assert TickRuns(s) == TickRuns(s[1..]);
        RunsBoundTicks(s[1..], m, i - 1);
        if TicksAt(s, i, m + 1) {
          TicksShift(s, 1, i, m + 1);
        }
      }
    } else {
      var n := LeadingTicks(s);
      assert TickRuns(s) == [n] + TickRuns(s[n..]);
      assert n in TickRuns(s);
      if i >= n {
        forall r | r in TickRuns(s[n..]) ensures r <= m {
          assert r in TickRuns(s);
        }
        RunsBoundTicks(s[n..], m, i - n);
        if TicksAt(s, i, m + 1) {
          TicksShift(s, n, i, m + 1);
        }
      } else if n < |s| {
        assert i <= n < i + m + 1 && s[n] != '`';
      }
    }
  }

  /** The text never holds more backticks in a row than its longest run. */
  lemma NoLongerRun(s: string, k: nat)
    requires k > MaxTick(s)
    ensures forall i: nat :: !TicksAt(s, i, k)
  {
    MaxOfBounds(TickRuns(s));
    forall i: nat ensures !TicksAt(s, i, k) {
      RunsBoundTicks(s, k - 1, i);
    }
  }

  /** Code-unit order on strings of backticks is order by length. */
  lemma {:induction false} TickLexLe(a: string, b: string)
    requires IsTicks(a) && IsTicks(b)
    ensures LexLe(a, b) <==> |a| <= |b|
  {
    if a != [] && b != [] {
      TickLexLe(a[1..], b[1..]);
    }
  }

  lemma LexOrder()
    ensures Sorting.TotalPreorder(LexLe)
  {
    forall a, b ensures LexLe(a, b) || LexLe(b, a) {
      LexLeTotal(a, b);
    }
    forall a, b, c | LexLe(a, b) && LexLe(b, c) ensures LexLe(a, c) {
      LexLeTransitive(a, b, c);
    }
  }

  // ----- codeBlock -----

  /** The matches of `` /`{3,}/gm ``: the runs of three or more backticks, as text. */
  function FenceMatches(runs: seq<nat>): (r: seq<string>)
    ensures |r| <= |runs|
  {
    if runs == [] then []
    else (if runs[0] >= 3 then [Repeat('`', runs[0])] else []) + FenceMatches(runs[1..])
  }

  lemma {:induction false} FenceMatchesSpec(runs: seq<nat>)
    ensures forall x :: x in FenceMatches(runs) ==> IsTicks(x) && |x| >= 3 && |x| in runs
    ensures forall r :: r in runs && r >= 3 ==> Repeat('`', r) in FenceMatches(runs)
  {
    if runs != [] {
      FenceMatchesSpec(runs[1..]);
    }
  }

  lemma {:induction false} NoFenceMatches(runs: seq<nat>)
    requires forall r :: r in runs ==> r < 3
    ensures FenceMatches(runs) == []
  {
    if runs != [] {
      assert runs[0] in runs;
      forall r | r in runs[1..] ensures r < 3 {
        assert r in runs;
      }
      NoFenceMatches(runs[1..]);
    }
  }

  /** The fence of a code block: the last of the sorted matches with one more
      backtick, or three backticks when nothing matches. */
  function Fence(content: string): string {
    var matches := FenceMatches(TickRuns(content));
    if matches == [] then "```"
    else
      var sorted := Sorting.Sort(matches, LexLe);
      sorted[|sorted| - 1] + "`"
  }

  /** The last of the sorted backtick runs is the longest one. */
  lemma SortedLastIsLongest(matches: seq<string>)
    requires matches != [] && forall x :: x in matches ==> IsTicks(x)
    ensures var sorted := Sorting.Sort(matches, LexLe);
      sorted[|sorted| - 1] in matches &&
      forall x :: x in matches ==> |x| <= |sorted[|sorted| - 1]|
  {
    var sorted := Sorting.Sort(matches, LexLe);
    LexOrder();
    Sorting.SortedLast(matches, LexLe);
    forall x | x in matches ensures |x| <= |sorted[|sorted| - 1]| {
      TickLexLe(x, sorted[|sorted| - 1]);
    }
  }

  /** The fence is three backticks when the content has no run of three or
      more, and otherwise one backtick longer than the longest run. */
  lemma FenceLength(content: string)
    ensures IsTicks(Fence(content))
    ensures MaxTick(content) < 3 ==> Fence(content) == "```"
    ensures MaxTick(content) >= 3 ==> |Fence(content)| == MaxTick(content) + 1
  {
    var runs := TickRuns(content);
    var matches := FenceMatches(runs);
    MaxOfBounds(runs);
    FenceMatchesSpec(runs);
    if MaxTick(content) < 3 {
      NoFenceMatches(runs);
    } else {
      var longest := Repeat('`', MaxTick(content));
      assert longest in matches;
      SortedLastIsLongest(matches);
      var sorted := Sorting.Sort(matches, LexLe);
      assert |longest| <= |sorted[|sorted| - 1]|;
    }
  }

  /** The fence is at least three backticks and longer than every backtick
      run of the content, so no line of the content can close the block. */
  lemma FenceOutrunsContent(content: string)
    ensures |Fence(content)| >= 3 && |Fence(content)| > MaxTick(content)
    ensures forall i: nat :: !TicksAt(content, i, |Fence(content)|)
  {
    FenceLength(content);
    NoLongerRun(content, |Fence(content)|);
  }

  /** The `codeBlock` rule: the fence, the trimmed language (not normalized,
      and empty for `null`), the content on its own lines, the fence again. */
  function CodeBlock(content: string, language: Option<string>): string {
    var fence := Fence(content);
    fence + Trim(language.GetOr("")) + "\n" + content + "\n" + fence
  }

  lemma CodeBlockLayout(content: string, language: Option<string>)
    ensures var r := CodeBlock(content, language);
      var opening := Fence(content) + Trim(language.GetOr("")) + "\n";
      StartsWith(r, opening) && EndsWith(r, "\n" + Fence(content)) &&
      r[|opening|..|r| - |Fence(content)| - 1] == content
  {
    var fence := Fence(content);
    var opening := fence + Trim(language.GetOr("")) + "\n";
    var r := CodeBlock(content, language);
    assert r == opening + content + ("\n" + fence);
  }

  /** The block of the `fence` token's info string: its first word after
      trimming, or `null` when there is none. */
  function InfoLanguage(info: Option<string>): (r: Option<string>)
    ensures r.Some? ==> r.value != "" && forall i :: 0 <= i < |r.value| ==> !IsSpace(r.value[i])
  {
    match info
    case None => None
    case Some(text) =>
      var word := FirstWord(Trim(text));
      if word == "" then None else Some(word)
  }

  /** `s.split(/\s+/)[0]`: the text before the first white space. */
  function FirstWord(s: string): (r: string)
    ensures forall i :: 0 <= i < |r| ==> !IsSpace(r[i])
  {
    if s == [] || IsSpace(s[0]) then [] else [s[0]] + FirstWord(s[1..])
  }

  lemma {:induction false} FirstWordOfWord(w: string)
    requires forall i :: 0 <= i < |w| ==> !IsSpace(w[i])
    ensures FirstWord(w) == w
  {
    if w != [] {
      FirstWordOfWord(w[1..]);
    }
  }

  /** A one-word language written after the fence is read back as that
      language; no language, or a blank one, is read back as `null`. */
  lemma CodeBlockLanguageRoundTrip(language: Option<string>)
    requires language.None? || forall i :: 0 <= i < |language.value| ==> !IsSpace(language.value[i])
    ensures InfoLanguage(Some(Trim(language.GetOr("")))) == if language.None? || language.value == "" then None else language
  {
    var w := language.GetOr("");
    TrimIdentity(w);
    FirstWordOfWord(w);
  }

  /** A content without backticks gets the three-backtick fence. */
  lemma NoTicksFence(content: string)
    requires '`' !in content
    ensures Fence(content) == "```"
  {
    NoTickRuns(content);
    FenceLength(content);
  }

  lemma {:induction false} NoTickRuns(s: string)
    requires '`' !in s
    ensures TickRuns(s) == []
  {
    if s != [] {
      assert s == [s[0]] + s[1..];
      NoTickRuns(s[1..]);
    }
  }

  /** The language is written as it is, `plaintext` included. */
  lemma LanguageWritten(content: string, language: string)
    requires '`' !in content && Trim(language) == language
    ensures StartsWith(CodeBlock(content, Some(language)), "```" + language + "\n")
  {
    NoTicksFence(content);
    CodeBlockLayout(content, Some(language));
  }

  lemma PlaintextIsWritten(content: string)
    requires '`' !in content
    ensures StartsWith(CodeBlock(content, Some("plaintext")), "```plaintext\n")
  {
    TrimIdentity("plaintext");
    LanguageWritten(content, "plaintext");
    assert "```" + "plaintext" + "\n" == "```plaintext\n";
  }

  // ----- heading -----

  /** The `heading` rule: `level` hashes and a space. */
  function HeadingPrefix(level: nat): (r: string)
    ensures |r| == level + 1
  {
    Repeat('#', level) + " "
  }

  /** The number of leading `#` (the opening sequence of an ATX heading). */
  function LeadingHashes(s: string): nat {
    if s != [] && s[0] == '#' then 1 + LeadingHashes(s[1..]) else 0
  }

  /** The tag markdown-it gives a heading of `level`. */
  function HeadingTag(level: nat): string {
    "h" + Digits(level)
  }

  /** The heading `getAttrs`: `Number(tag.slice(1))`, `None` standing for `NaN`. */
  function HeadingLevel(tag: string): (r: Option<nat>) {
    var rest := if tag == [] then [] else tag[1..];
    if IsDigits(rest) then Some(DecimalValue(rest)) else None
  }

  lemma {:induction false} LeadingHashesOfPrefix(n: nat)
    ensures LeadingHashes(Repeat('#', n) + " ") == n
  {
    if n > 0 {
      assert (Repeat('#', n) + " ")[1..] == Repeat('#', n - 1) + " ";
      LeadingHashesOfPrefix(n - 1);
    }
  }

  /** A heading's prefix opens with exactly `level` hashes, and the level the
      parser reads from the tag is the level that was written. */
  lemma HeadingRoundTrip(level: nat)
    ensures LeadingHashes(HeadingPrefix(level)) == level
    ensures HeadingPrefix(level)[level] == ' '
    ensures HeadingLevel(HeadingTag(level)) == Some(level)
  {
    LeadingHashesOfPrefix(level);
    assert HeadingTag(level)[1..] == Digits(level);
    DigitsRoundTrip(level);
  }

  // ----- orderedList -----

  /** `Number(x || 1)` on a list's start number: absent or 0 counts as 1. The
      parser's `getAttrs` and the serializer both apply it. */
  function StartOrOne(order: Option<nat>): (r: nat)
    ensures r >= 1
    ensures order.Some? && order.value > 0 ==> r == order.value
  {
    if order.None? || order.value == 0 then 1 else order.value
  }

  /** The width of the widest number of a list of `count` items from `start`. */
  function MaxWidth(start: nat, count: nat): nat
    requires start >= 1
  {
    |Digits(start + count - 1)|
  }

  /** The continuation spacer of the list's items. */
  function Spacer(order: Option<nat>, count: nat): string {
    Repeat(' ', MaxWidth(StartOrOne(order), count) + 2)
  }

  /** The marker of item `index`: its number right-aligned to the widest, a dot, a space. */
  function ItemMarker(order: Option<nat>, count: nat, index: nat): string
    requires index < count
  {
    var start := StartOrOne(order);
    var n := Digits(start + index);
    DigitsLengthMonotone(start + index, start + count - 1);
    Repeat(' ', MaxWidth(start, count) - |n|) + n + ". "
  }

  /** Every marker is as wide as the spacer, and reads back the item's number. */
  lemma ItemMarkerShape(order: Option<nat>, count: nat, index: nat)
    requires index < count
    ensures |ItemMarker(order, count, index)| == |Spacer(order, count)|
    ensures var m := ItemMarker(order, count, index);
      var d := Digits(StartOrOne(order) + index);
      TrimStart(m) == d + ". " && DecimalValue(d) == StartOrOne(order) + index
  {
    var start := StartOrOne(order);
    var d := Digits(start + index);
    DigitsLengthMonotone(start + index, start + count - 1);
    var pad := Repeat(' ', MaxWidth(start, count) - |d|);
    assert ItemMarker(order, count, index) == pad + d + ". ";
    MarkerTrim(pad, d);
    DigitsRoundTrip(start + index);
  }

  lemma MarkerTrim(pad: string, d: string)
    requires forall i :: 0 <= i < |pad| ==> pad[i] == ' '
    requires d != [] && IsDigits(d)
    ensures TrimStart(pad + d + ". ") == d + ". "
  {
    assert pad + d + ". " == pad + (d + ". ");
    TrimPad(pad, d + ". ");
  }

  lemma {:induction false} TrimPad(pad: string, rest: string)
    requires forall i :: 0 <= i < |pad| ==> pad[i] == ' '
    requires rest != [] && '0' <= rest[0] <= '9'
    ensures TrimStart(pad + rest) == rest
  {
    if pad == [] {
      assert pad + rest == rest;
    } else {
      assert (pad + rest)[1..] == pad[1..] + rest;
      TrimPad(pad[1..], rest);
    }
  }

  /** A start number written out is read back as itself, and an absent or
      zero one is read and written as 1. */
  lemma StartRoundTrip(order: Option<nat>)
    ensures StartOrOne(Some(StartOrOne(order))) == StartOrOne(order)
    ensures order.None? || order == Some(0) ==> StartOrOne(order) == 1
  {
  }

  // ----- hardBreak -----

  /** Some sibling after `index` is not a hard break. */
  predicate ContentFollows(siblings: seq<InlineNode>, index: nat) {
    exists j :: index < j < |siblings| && !siblings[j].HardBreakNode?
  }

  /** The `hardBreak` rule: a backslash and a line feed when some later
      sibling is not a hard break, and nothing otherwise. */
  method HardBreak(siblings: seq<InlineNode>, index: nat) returns (out: string)
    ensures ContentFollows(siblings, index) ==> out == "\\\n"
    ensures !ContentFollows(siblings, index) ==> out == ""
  {
    var i := index + 1;
    while i < |siblings|
      invariant index + 1 <= i
      invariant forall j :: index < j < i && j < |siblings| ==> siblings[j].HardBreakNode?
    {
      if !siblings[i].HardBreakNode? {
        return "\\\n";
      }
      i := i + 1;
    }
    return "";
  }

  // ----- link -----

  /** The attributes of a link mark. */
  datatype LinkMark = LinkMark(href: Option<string>, title: Option<string>)

  /** JavaScript truthiness of an optional string. */
  predicate Truthy(s: Option<string>) {
    s.Some? && s.value != ""
  }

  /** The number of word characters `s` starts with. */
  function LeadingWord(s: string): (n: nat)
    ensures n <= |s|
    ensures forall i :: 0 <= i < n ==> IsWordChar(s[i])
    ensures n < |s| ==> !IsWordChar(s[n])
  {
    if s != [] && IsWordChar(s[0]) then 1 + LeadingWord(s[1..]) else 0
  }

  /** `/^\w+:/`: one or more word characters, then a colon. */
  predicate HasScheme(s: string) {
    var n := LeadingWord(s);
    n >= 1 && n < |s| && s[n] == ':'
  }

  lemma {:induction false} LeadingWordAtLeast(s: string, k: nat)
    requires k <= |s| && forall i :: 0 <= i < k ==> IsWordChar(s[i])
    ensures LeadingWord(s) >= k
  {
    if k > 0 {
      LeadingWordAtLeast(s[1..], k - 1);
    }
  }

  /** `/^\w+:/` holds exactly when some non-empty prefix of word characters is followed by a colon. */
  lemma HasSchemeIff(s: string)
    ensures HasScheme(s) <==> exists k :: 1 <= k < |s| && s[k] == ':' && forall i :: 0 <= i < k ==> IsWordChar(s[i])
  {
    if k :| 1 <= k < |s| && s[k] == ':' && forall i :: 0 <= i < k ==> IsWordChar(s[i]) {
      LeadingWordAtLeast(s, k);
    }
  }

  /** `isPlainLink`: no title, an href with a scheme, and content that is a
      text node equal to the href. */
  predicate IsPlainLink(mark: LinkMark, content: InlineNode) {
    !Truthy(mark.title) && HasScheme(mark.href.GetOr("")) &&
    content.TextNode? && mark.href == Some(content.text)
  }

  /** Each of `(`, `)` and `"` preceded by a backslash. */
  function EscapeHref(s: string): (r: string)
    ensures |r| >= |s|
  {
    if s == [] then []
    else (if s[0] in "()\"" then ['\\', s[0]] else [s[0]]) + EscapeHref(s[1..])
  }

  /** Each `"` preceded by a backslash. */
  function EscapeQuotes(s: string): (r: string)
    ensures |r| >= |s|
  {
    if s == [] then []
    else (if s[0] == '"' then ['\\', s[0]] else [s[0]]) + EscapeQuotes(s[1..])
  }

  /** The link's open delimiter. */
  function LinkOpen(mark: LinkMark, content: InlineNode): string {
    if IsPlainLink(mark, content) then "<" else "["
  }

  /** The link's close delimiter: `>` for an autolink, otherwise the escaped
      destination and the title, if it has one, in quotes. */
  function LinkClose(mark: LinkMark, content: InlineNode): string {
    if IsPlainLink(mark, content) then ">" else LinkDestination(mark)
  }

  /** The close of an inline link: the escaped destination and the title,
      if it has one, in quotes. */
  function LinkDestination(mark: LinkMark): (r: string)
    ensures StartsWith(r, "](") && r[|r| - 1] == ')'
  {
    var title := if Truthy(mark.title) then " \"" + EscapeQuotes(mark.title.value) + "\"" else "";
    "](" + EscapeHref(mark.href.GetOr("")) + title + ")"
  }

  /** The punctuation CommonMark lets a backslash escape (section 2.4). */
  predicate IsAsciiPunctuation(c: char) {
    ('!' <= c <= '/') || (':' <= c <= '@') || ('[' <= c <= '`') || ('{' <= c <= '~')
  }

  /** Backslash escapes resolved as in section 2.4 of CommonMark. */
  function Unescape(s: string): string {
    if s == [] then []
    else if |s| >= 2 && s[0] == '\\' && IsAsciiPunctuation(s[1]) then [s[1]] + Unescape(s[2..])
    else [s[0]] + Unescape(s[1..])
  }

  /** After escaping, every `(`, `)` and `"` is escaped, so none of them can
      end the destination. */
  lemma {:induction false} HrefEscaped(s: string)
    requires '\\' !in s
    ensures var e := EscapeHref(s);
      forall i :: 0 <= i < |e| && e[i] in "()\"" ==> i > 0 && e[i - 1] == '\\'
  {
    if s != [] {
      HrefEscaped(s[1..]);
      var head: string := if s[0] in "()\"" then ['\\', s[0]] else [s[0]];
      var e := EscapeHref(s);
      var rest := EscapeHref(s[1..]);
      assert e == head + rest;
      EscapeHrefHead(s[1..]);
      forall i | 0 <= i < |e| && e[i] in "()\"" ensures i > 0 && e[i - 1] == '\\' {
        if i > |head| {
          assert e[i] == rest[i - |head|];
          assert e[i - 1] == rest[i - 1 - |head|];
        }
      }
    }
  }

  lemma EscapeHrefHead(s: string)
    requires '\\' !in s
    ensures s != [] ==> EscapeHref(s)[0] !in "()\""
  {
  }

  /** A destination without backslashes is read back as written. */
  lemma {:induction false} HrefRoundTrip(s: string)
    requires '\\' !in s
    ensures Unescape(EscapeHref(s)) == s
  {
    if s != [] {
      HrefRoundTrip(s[1..]);
      var rest := EscapeHref(s[1..]);
      if s[0] in "()\"" {
        assert EscapeHref(s) == ['\\', s[0]] + rest;
        assert (['\\', s[0]] + rest)[2..] == rest;
      } else {
        assert EscapeHref(s) == [s[0]] + rest;
        assert ([s[0]] + rest)[1..] == rest;
      }
    }
  }

  /** A title without backslashes is read back as written. */
  lemma {:induction false} TitleRoundTrip(s: string)
    requires '\\' !in s
    ensures Unescape(EscapeQuotes(s)) == s
  {
    if s != [] {
      TitleRoundTrip(s[1..]);
      var rest := EscapeQuotes(s[1..]);
      if s[0] == '"' {
        assert EscapeQuotes(s) == ['\\', s[0]] + rest;
        assert (['\\', s[0]] + rest)[2..] == rest;
      } else {
        assert EscapeQuotes(s) == [s[0]] + rest;
        assert ([s[0]] + rest)[1..] == rest;
      }
    }
  }

  /** The open delimiter is chosen from the first node the link covers
      (`parent.child(index)`), the close delimiter from the last
      (`parent.child(index - 1)`). They agree exactly when the two nodes are
      alike plain or alike not, which always holds for a link over one node. */
  lemma LinkDelimitersAgree(mark: LinkMark, first: InlineNode, last: InlineNode)
    ensures (LinkOpen(mark, first) == "<" <==> LinkClose(mark, last) == ">")
        <==> (IsPlainLink(mark, first) <==> IsPlainLink(mark, last))
    ensures first == last ==> (LinkOpen(mark, first) == "<" <==> LinkClose(mark, last) == ">")
    ensures !IsPlainLink(mark, last) ==> StartsWith(LinkClose(mark, last), "](")
  {
    if !IsPlainLink(mark, last) {
      var c := LinkClose(mark, last);
      assert c[0] == ']';
    }
  }

  /** A destination without `(`, `)` or `"` is written unescaped. */
  lemma {:induction false} EscapeHrefPlain(s: string)
    requires forall i :: 0 <= i < |s| ==> s[i] !in "()\""
    ensures EscapeHref(s) == s
  {
    if s != [] {
      EscapeHrefPlain(s[1..]);
    }
  }

  /** As written, a link with no title whose first node is its own href,
      with a scheme, and whose last node is other text opens as an autolink but
      closes as an inline link: over "http://x.com" and an italic "b" it is
      written "<http://x.com*b*](http://x.com)". */
  lemma MixedLinkAsWritten(href: string, other: string)
    requires HasScheme(href) && other != href
    requires forall i :: 0 <= i < |href| ==> href[i] !in "()\""
    ensures LinkOpen(LinkMark(Some(href), None), TextNode(href)) == "<"
    ensures LinkClose(LinkMark(Some(href), None), TextNode(other)) == "](" + href + ")"
  {
    EscapeHrefPlain(href);
  }

  /** A link over "a:b" and an italic "b" opens with "<" and closes with
      "](a:b)". */
  lemma MixedLinkExample()
    ensures LinkOpen(LinkMark(Some("a:b"), None), TextNode("a:b")) == "<"
    ensures LinkClose(LinkMark(Some("a:b"), None), TextNode("b")) == "](a:b)"
  {
    var h := "a:b";
    assert h[1] == ':';
    assert LeadingWord(h[1..]) == 0;
    assert LeadingWord(h) == 1;
    MixedLinkAsWritten(h, "b");
  }

  /** `isPlainLink` taken over all the nodes a link covers: an autolink needs
      exactly one text node equal to the href. */
  predicate IsAutolink(mark: LinkMark, linked: seq<InlineNode>) {
    |linked| == 1 && IsPlainLink(mark, linked[0])
  }

  /** The open delimiter with the autolink decision made for the whole link. */
  function LinkOpenOver(mark: LinkMark, linked: seq<InlineNode>): string {
    if IsAutolink(mark, linked) then "<" else "["
  }

  /** The close delimiter with the same decision. */
  function LinkCloseOver(mark: LinkMark, linked: seq<InlineNode>): string {
    if IsAutolink(mark, linked) then ">" else LinkDestination(mark)
  }

  /** With the decision made once, the two delimiters always agree, and over a
      single node they are what the serializer writes. */
  lemma LinkOverAgree(mark: LinkMark, linked: seq<InlineNode>)
    ensures LinkOpenOver(mark, linked) == "<" <==> LinkCloseOver(mark, linked) == ">"
    ensures LinkOpenOver(mark, linked) == "[" <==> StartsWith(LinkCloseOver(mark, linked), "](")
    ensures |linked| == 1 ==>
      LinkOpenOver(mark, linked) == LinkOpen(mark, linked[0]) && LinkCloseOver(mark, linked) == LinkClose(mark, linked[0])
  {
    if !IsAutolink(mark, linked) {
      var c := LinkCloseOver(mark, linked);
      assert c[0] == ']';
    }
  }

  /** The links of the as-written example are written as inline links. */
  lemma MixedLinkCorrected(href: string, other: string)
    requires HasScheme(href) && other != href
    requires forall i :: 0 <= i < |href| ==> href[i] !in "()\""
    ensures var linked := [TextNode(href), TextNode(other)];
      LinkOpenOver(LinkMark(Some(href), None), linked) == "[" &&
      LinkCloseOver(LinkMark(Some(href), None), linked) == "](" + href + ")"
  {
    EscapeHrefPlain(href);
  }

  /** The link `getAttrs`: an empty title counts as none. */
  function LinkAttrs(href: Option<string>, title: Option<string>): (r: LinkMark)
    ensures r.title.Some? <==> Truthy(title)
    ensures Truthy(title) ==> r.title == title
    ensures r.href == href
  {
    LinkMark(href, if Truthy(title) then title else None)
  }

  /** An empty title and no title are written alike. */
  lemma EmptyTitleIgnored(href: Option<string>, content: InlineNode)
    ensures LinkClose(LinkAttrs(href, Some("")), content) == LinkClose(LinkMark(href, None), content)
  {
  }

  // ----- code -----

  function InnerPad(max: nat): string {
    if max > 0 then " " else ""
  }

  /** `inlineTicks`: one more backtick than the longest run of the text,
      padded inside with a space when the text holds a backtick; a single
      backtick for any node that is not text. `side` is -1 for the open
      delimiter and 1 for the close delimiter. */
  method InlineTicks(node: InlineNode, side: int) returns (marker: string)
    requires side == -1 || side == 1
    ensures !node.TextNode? ==> marker == "`"
    ensures node.TextNode? ==>
      var run := Repeat('`', MaxTick(node.text) + 1);
      marker == if side < 0 then run + InnerPad(MaxTick(node.text)) else InnerPad(MaxTick(node.text)) + run
  {
    if !node.TextNode? {
      return "`";
    }
    var max := MaxTick(node.text);
    marker := if max > 0 && side > 0 then " `" else "`";
    var i := 0;
    while i < max
      invariant 0 <= i <= max
      invariant marker == (if side > 0 then InnerPad(max) else "") + Repeat('`', i + 1)
    {
      marker := marker + "`";
      i := i + 1;
    }
    if max > 0 && side < 0 {
      marker := marker + " ";
    }
  }

  predicate AllSpaces(s: string) {
    forall i :: 0 <= i < |s| ==> s[i] == ' '
  }

  /** Section 6.1 of CommonMark: the content of a code span is the text between
      its delimiters, less one leading and one trailing space when it both
      begins and ends with a space and is not all spaces (line endings are
      not part of this model). */
  function CodeSpanContent(inner: string): string {
    if |inner| >= 2 && inner[0] == ' ' && inner[|inner| - 1] == ' ' && !AllSpaces(inner)
    then inner[1..|inner| - 1]
    else inner
  }

  /** What the parser reads back as the text of the code span written for `text`. */
  function CodeSpanAsWritten(text: string): string {
    var pad := InnerPad(MaxTick(text));
    CodeSpanContent(pad + text + pad)
  }

  /** Text that begins and ends with a space but holds no backtick is written
      without padding and loses those spaces on reading. */
  lemma CodeSpanLosesSpaces()
    ensures MaxTick(" a ") == 0
    ensures CodeSpanAsWritten(" a ") == "a"
  {
    NoTickRuns(" a ");
    assert InnerPad(0) + " a " + InnerPad(0) == " a ";
    assert " a "[1] == 'a' && " a "[1..2] == "a";
  }

  /** The padding that keeps the text intact: also when it begins and ends
      with a space and is not all spaces. */
  function CorrectedPad(text: string): string {
    if MaxTick(text) > 0 || (|text| >= 2 && text[0] == ' ' && text[|text| - 1] == ' ' && !AllSpaces(text))
    then " " else ""
  }

  /** With the corrected padding, every code text reads back as itself. */
  lemma CodeSpanRoundTrip(text: string)
    ensures CodeSpanContent(CorrectedPad(text) + text + CorrectedPad(text)) == text
  {
    var pad := CorrectedPad(text);
    var inner := pad + text + pad;
    if pad == " " {
      assert |inner| == |text| + 2 && inner[0] == ' ' && inner[|inner| - 1] == ' ';
      if MaxTick(text) > 0 {
        TickAt(text);
        var k :| 0 <= k < |text| && text[k] == '`';
        assert inner[k + 1] == '`';
      } else {
        var k :| 0 <= k < |text| && text[k] != ' ';
        assert inner[k + 1] != ' ';
      }
      assert !AllSpaces(inner);
      assert inner[1..|inner| - 1] == text;
    } else {
      assert inner == text;
    }
  }

  /** A text with a run of backticks holds a backtick. */
  lemma {:induction false} TickAt(s: string)
    requires TickRuns(s) != []
    ensures exists k :: 0 <= k < |s| && s[k] == '`'
    decreases |s|
  {
    if s[0] != '`' {
      TickAt(s[1..]);
      var k :| 0 <= k < |s[1..]| && s[1..][k] == '`';
      assert s[k + 1] == '`';
    }
  }

  // ----- serializeMarkdown and parseMarkdown -----

  /** `serializeMarkdown`: the serializer's output without trailing white space. */
  function SerializeMarkdown(serialized: string): (r: string)
    ensures r == [] || !IsSpace(r[|r| - 1])
  {
    TrimEnd(serialized)
  }

  /** Only trailing white space is dropped, and trimming again changes nothing. */
  lemma SerializeTrims(serialized: string)
    ensures StartsWith(serialized, SerializeMarkdown(serialized))
    ensures IsBlank(serialized[|SerializeMarkdown(serialized)|..])
    ensures SerializeMarkdown(SerializeMarkdown(serialized)) == SerializeMarkdown(serialized)
  {
    TrimEndSpaces(serialized);
  }
}
