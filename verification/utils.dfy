/**
 * `orThrow` and `parseMd`: splitting a Markdown document into its front matter
 * and its body with `/^---\n(.*?)\n---\n(.*)/s`. Text is a sequence of UTF-16
 * code units, as JavaScript strings are.
 */
module Utils {
  import opened Wrappers

  newtype CodeUnit = u: int | 0 <= u < 0x1_0000

  type Text = seq<CodeUnit>

  const LineFeed: CodeUnit := 0x0A
  const HyphenMinus: CodeUnit := 0x2D

  /** "---\n", which `^---\n` demands at the very start of the text. */
  const OpeningFence: Text := [HyphenMinus, HyphenMinus, HyphenMinus, LineFeed]

  /** "\n---\n", which ends the front matter. */
  const ClosingFence: Text := [LineFeed, HyphenMinus, HyphenMinus, HyphenMinus, LineFeed]

  /** The message `orThrow` throws when no other message is given. */
  const NullishMessage := "予期せずundefined/nullが発生しましたので中断しました"

  /** `orThrow(arg, callable, opts)`: `callable(arg)` when `arg` is neither null
      nor undefined, otherwise a thrown Error carrying `opts.message`, or the
      default message when that is absent. */
  function OrThrow<T, U>(arg: Option<T>, callable: T -> U, message: Option<string>): (r: Result<U>)
    ensures r.Ok? <==> arg.Some?
    ensures r.Ok? ==> r.value == callable(arg.value)
    ensures r.Err? ==> r.error.message == (if message.Some? then message.value else NullishMessage)
  {
    if arg.Some? then Ok(callable(arg.value))
    else Err(Error(if message.Some? then message.value else NullishMessage))
  }

  /** The closing fence occurs at index k. */
  predicate ClosesAt(text: Text, k: int) {
    0 <= k && k + |ClosingFence| <= |text| && text[k..k + |ClosingFence|] == ClosingFence
  }

  /** The lazy `(.*?)`: the first index at or after `from` where the closing
      fence occurs. */
  function FirstCloseFrom(text: Text, from: nat): (k: Option<nat>)
    requires from <= |text|
    ensures k.Some? ==>
      from <= k.value && ClosesAt(text, k.value) &&
      forall j :: from <= j < k.value ==> !ClosesAt(text, j)
    ensures k.None? ==> forall j :: from <= j ==> !ClosesAt(text, j)
    decreases |text| - from
  {
    if from + |ClosingFence| > |text| then None
    else if ClosesAt(text, from) then Some(from)
    else FirstCloseFrom(text, from + 1)
  }

  /** The two properties of FirstCloseFrom determine it. */
  lemma FirstCloseFromUnique(text: Text, from: nat, k: nat)
    requires from <= k && ClosesAt(text, k)
    requires forall j :: from <= j < k ==> !ClosesAt(text, j)
    ensures FirstCloseFrom(text, from) == Some(k)
  {
  }

  /** `text.match(/^---\n(.*?)\n---\n(.*)/s)`: the two capture groups, or null.
      `^` anchors at index 0, the lazy group stops at the first closing fence,
      and `(.*)` with the `s` flag takes everything after it. */
  function FrontMatterMatch(text: Text): Option<(Text, Text)> {
    if |text| >= |OpeningFence| && text[..|OpeningFence|] == OpeningFence then
      match FirstCloseFrom(text, |OpeningFence|)
      case Some(k) => Some((text[|OpeningFence|..k], text[k + |ClosingFence|..]))
      case None => None
    else None
  }

  /** What `parseMd` returns. */
  datatype Markdown = Markdown(frontmatter: Text, content: Text)

  /** `parseMd`: the two capture groups as front matter and content, or the
      default `orThrow` error when the pattern does not match. */
  function ParseMd(markdownText: Text): (r: Result<Markdown>)
    ensures r.Err? ==> r == Err(Error(NullishMessage))
    ensures r.Ok? ==> |OpeningFence| + |r.value.frontmatter| + |ClosingFence| + |r.value.content| == |markdownText|
  {
    OrThrow(FrontMatterMatch(markdownText), (groups: (Text, Text)) => Markdown(groups.0, groups.1), None)
  }

  /** What `parseMd` accepts and what it returns: it succeeds exactly when the
      text opens with "---\n" and the closing fence occurs at index 4 or later;
      the front matter then runs up to the first such fence, the content is
      everything after it, and the three pieces put back together give the
      text. */
  lemma ParseMdShape(markdownText: Text)
    ensures ParseMd(markdownText).Ok? <==>
      |markdownText| >= 4 && markdownText[..4] == OpeningFence &&
      exists k :: 4 <= k && ClosesAt(markdownText, k)
    ensures ParseMd(markdownText).Ok? ==>
      var parsed := ParseMd(markdownText).value;
      OpeningFence + parsed.frontmatter + ClosingFence + parsed.content == markdownText &&
      ClosesAt(markdownText, 4 + |parsed.frontmatter|) &&
      forall k :: 4 <= k < 4 + |parsed.frontmatter| ==> !ClosesAt(markdownText, k)
  {
    if ParseMd(markdownText).Ok? {
      var k := FirstCloseFrom(markdownText, 4).value;
      assert markdownText == markdownText[..4] + markdownText[4..k] + markdownText[k..k + 5] + markdownText[k + 5..];
    }
  }

  /** Round trip: when the first closing fence in `frontmatter + "\n---\n"` is
      the appended one, `parseMd` gives back exactly `frontmatter` and `content`. */
  lemma ParseMdRoundTrip(frontmatter: Text, content: Text)
    requires forall k :: 0 <= k < |frontmatter| ==> !ClosesAt(frontmatter + ClosingFence, k)
    ensures ParseMd(OpeningFence + frontmatter + ClosingFence + content) == Ok(Markdown(frontmatter, content))
  {
    var text := OpeningFence + frontmatter + ClosingFence + content;
    var end := 4 + |frontmatter|;
    assert text[end..end + 5] == ClosingFence;
    forall j | 4 <= j < end
      ensures !ClosesAt(text, j)
    {
      assert text[j..j + 5] == (frontmatter + ClosingFence)[j - 4..j + 1];
      assert !ClosesAt(frontmatter + ClosingFence, j - 4);
    }
    FirstCloseFromUnique(text, 4, end);
    assert text[..4] == OpeningFence;
    assert text[4..end] == frontmatter;
    assert text[end + 5..] == content;
  }
}
