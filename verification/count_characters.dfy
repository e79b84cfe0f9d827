/**
 * `requestCharCount`: over all documents, the length of each parsed body once
 * every whitespace code unit is removed, summed. The documents are given as
 * their decoded text instead of being listed from a folder.
 */
module CountCharacters {
  import opened Wrappers
  import opened Utils

  /** `\s` in an ECMAScript regular expression without the `u` flag: the
      WhiteSpace code points (TAB, VT, FF, ZWNBSP and every space separator,
      ideographic space U+3000 included) and the LineTerminator code points. */
  predicate IsWhiteSpace(u: CodeUnit) {
    u == 0x09 || u == 0x0B || u == 0x0C || u == 0x20 || u == 0xA0 || u == 0xFEFF ||
    u == 0x1680 || (0x2000 <= u <= 0x200A) || u == 0x202F || u == 0x205F || u == 0x3000 ||
    u == 0x0A || u == 0x0D || u == 0x2028 || u == 0x2029
  }

  /** The text with every whitespace code unit dropped, the rest kept in order. */
  function RemoveWhitespace(s: Text): (r: Text)
    ensures |r| <= |s|
    decreases |s|
  {
    if s == [] then []
    else if IsWhiteSpace(s[0]) then RemoveWhitespace(s[1..])
    else [s[0]] + RemoveWhitespace(s[1..])
  }

  /** Nothing left after stripping is whitespace, and every other code unit
      occurs exactly as often as in the input. */
  lemma {:induction false} RemoveWhitespaceContents(s: Text)
    ensures forall k :: 0 <= k < |RemoveWhitespace(s)| ==> !IsWhiteSpace(RemoveWhitespace(s)[k])
    ensures forall u :: !IsWhiteSpace(u) ==> multiset(RemoveWhitespace(s))[u] == multiset(s)[u]
    decreases |s|
  {
    if s != [] {
      RemoveWhitespaceContents(s[1..]);
      assert s == [s[0]] + s[1..];
    }
  }

  /** Text without whitespace is its own stripped form. */
  lemma {:induction false} RemoveWhitespaceKeepsClean(s: Text)
    requires forall k :: 0 <= k < |s| ==> !IsWhiteSpace(s[k])
    ensures RemoveWhitespace(s) == s
    decreases |s|
  {
    if s != [] {
      RemoveWhitespaceKeepsClean(s[1..]);
    }
  }

  /** Stripping twice strips no more than stripping once. */
  lemma RemoveWhitespaceIdempotent(s: Text)
    ensures RemoveWhitespace(RemoveWhitespace(s)) == RemoveWhitespace(s)
  {
    RemoveWhitespaceContents(s);
    RemoveWhitespaceKeepsClean(RemoveWhitespace(s));
  }

  /** The end of the run of whitespace that starts at index i (the greedy `+`). */
  function RunEnd(s: Text, i: nat): (e: nat)
    requires i <= |s|
    ensures i <= e <= |s|
    ensures forall k :: i <= k < e ==> IsWhiteSpace(s[k])
    ensures e < |s| ==> !IsWhiteSpace(s[e])
    decreases |s| - i
  {
    if i < |s| && IsWhiteSpace(s[i]) then RunEnd(s, i + 1) else i
  }

  /** `s.replace(/[\s\n]+/g, '')` from index i on: every maximal run of
      whitespace is replaced by nothing, everything else is copied. */
  function ReplaceWhitespaceRuns(s: Text, i: nat): Text
    requires i <= |s|
    decreases |s| - i
  {
    if i == |s| then []
    else if IsWhiteSpace(s[i]) then ReplaceWhitespaceRuns(s, RunEnd(s, i))
    else [s[i]] + ReplaceWhitespaceRuns(s, i + 1)
  }

  lemma {:induction false} RemoveWhitespaceSkipsRun(s: Text, i: nat, e: nat)
    requires i <= e <= |s|
    requires forall k :: i <= k < e ==> IsWhiteSpace(s[k])
    ensures RemoveWhitespace(s[i..]) == RemoveWhitespace(s[e..])
    decreases e - i
  {
    if i < e {
      assert s[i..][1..] == s[i + 1..];
      RemoveWhitespaceSkipsRun(s, i + 1, e);
    }
  }

  /** Replacing whole runs at once removes exactly the whitespace code units. */
  lemma {:induction false} ReplaceRunsRemovesWhitespace(s: Text, i: nat)
    requires i <= |s|
    ensures ReplaceWhitespaceRuns(s, i) == RemoveWhitespace(s[i..])
    decreases |s| - i
  {
    if i < |s| {
      assert s[i..][1..] == s[i + 1..];
      if IsWhiteSpace(s[i]) {
        var e := RunEnd(s, i);
        RemoveWhitespaceSkipsRun(s, i, e);
        ReplaceRunsRemovesWhitespace(s, e);
      } else {
        ReplaceRunsRemovesWhitespace(s, i + 1);
      }
    }
  }

  /** `s.replace(/[\s\n]+/g, '').length`: the number of code units that are
      not whitespace. */
  function StrippedLength(s: Text): (n: nat)
    ensures n == |RemoveWhitespace(s)|
  {
    ReplaceRunsRemovesWhitespace(s, 0);
    assert s[0..] == s;
    |ReplaceWhitespaceRuns(s, 0)|
  }

  /** What one document adds: the stripped length of the body `parseMd` finds;
      a document `parseMd` rejects makes it throw. */
  function DocumentCount(text: Text): (r: Result<nat>)
    ensures r.Ok? <==> ParseMd(text).Ok?
    ensures r.Ok? ==> r.value == |RemoveWhitespace(ParseMd(text).value.content)|
    ensures r.Err? ==> r.error == ParseMd(text).error
  {
    match ParseMd(text)
    case Err(e) => Err(e)
    case Ok(parsed) => Ok(StrippedLength(parsed.content))
  }

  /** Front matter never counts: a document built from any front matter (free
      of an early closing fence) and a body counts the body's non-whitespace
      code units. */
  lemma FrontMatterNeverCounts(frontmatter: Text, content: Text)
    requires forall k :: 0 <= k < |frontmatter| ==> !ClosesAt(frontmatter + ClosingFence, k)
    ensures DocumentCount(OpeningFence + frontmatter + ClosingFence + content) == Ok(|RemoveWhitespace(content)|)
  {
    ParseMdRoundTrip(frontmatter, content);
  }

  /** One step of the loop of `requestCharCount`: add the next document's
      count to the running sum, or carry the first error. */
  function AddCount(sum: Result<nat>, next: Result<nat>): Result<nat> {
    match sum
    case Err(e) => Err(e)
    case Ok(s) =>
      match next
      case Err(e) => Err(e)
      case Ok(n) => Ok(s + n)
  }

  /** The loop of `requestCharCount` over per-document results, in order. */
  function Accumulate(results: seq<Result<nat>>): Result<nat>
    decreases |results|
  {
    if results == [] then Ok(0)
    else AddCount(Accumulate(results[..|results| - 1]), results[|results| - 1])
  }

  /** Accumulating a concatenation accumulates the parts. */
  lemma {:induction false} AccumulateAppend(a: seq<Result<nat>>, b: seq<Result<nat>>)
    ensures Accumulate(a + b) == AddCount(Accumulate(a), Accumulate(b))
    decreases |b|
  {
    if b == [] {
      assert a + b == a;
    } else {
      var init := b[..|b| - 1];
      assert (a + b)[..|a + b| - 1] == a + init;
      assert (a + b)[|a + b| - 1] == b[|b| - 1];
      AccumulateAppend(a, init);
    }
  }

  /** A single result accumulates to itself. */
  lemma AccumulateSingle(next: Result<nat>)
    ensures Accumulate([next]) == next
  {
    assert [next][..0] == [];
  }

  /** Each document's count, in order. */
  function DocumentCounts(documents: seq<Text>): (counts: seq<Result<nat>>)
    ensures |counts| == |documents|
    ensures forall i :: 0 <= i < |documents| ==> counts[i] == DocumentCount(documents[i])
  {
    seq(|documents|, i requires 0 <= i < |documents| => DocumentCount(documents[i]))
  }

  lemma DocumentCountsAppend(a: seq<Text>, b: seq<Text>)
    ensures DocumentCounts(a + b) == DocumentCounts(a) + DocumentCounts(b)
  {
  }

  /** What `requestCharCount` returns for the given documents: the sum of their
      counts, or the first error a document throws. */
  function TotalCount(documents: seq<Text>): Result<nat> {
    Accumulate(DocumentCounts(documents))
  }

  /** `requestCharCount`, over the given documents. */
  method RequestCharCount(documents: seq<Text>) returns (r: Result<nat>)
    ensures r == TotalCount(documents)
  {
    var sum := 0;
    for i := 0 to |documents|
      invariant TotalCount(documents[..i]) == Ok(sum)
    {
      var parsed := ParseMd(documents[i]);
      TotalCountNext(documents, i);
      if parsed.Err? {
        TotalCountStopsAtError(documents, i + 1);
        return Err(parsed.error);
      }
      sum := sum + StrippedLength(parsed.value.content);
    }
    assert documents[..|documents|] == documents;
    return Ok(sum);
  }

  /** Counting a concatenation counts the parts: the sum of both when both
      succeed, otherwise the first error met in document order. */
  lemma TotalCountAppend(a: seq<Text>, b: seq<Text>)
    ensures TotalCount(a + b) == AddCount(TotalCount(a), TotalCount(b))
  {
    DocumentCountsAppend(a, b);
    AccumulateAppend(DocumentCounts(a), DocumentCounts(b));
  }

  /** One more document adds its own count to the count of those before it. */
  lemma TotalCountNext(documents: seq<Text>, i: nat)
    requires i < |documents|
    ensures TotalCount(documents[..i + 1]) == AddCount(TotalCount(documents[..i]), DocumentCount(documents[i]))
  {
    assert documents[..i + 1] == documents[..i] + [documents[i]];
    TotalCountAppend(documents[..i], [documents[i]]);
    assert DocumentCounts([documents[i]]) == [DocumentCount(documents[i])];
    AccumulateSingle(DocumentCount(documents[i]));
  }

  /** Once the documents before n have failed, the rest are never counted. */
  lemma TotalCountStopsAtError(documents: seq<Text>, n: nat)
    requires n <= |documents| && TotalCount(documents[..n]).Err?
    ensures TotalCount(documents) == TotalCount(documents[..n])
  {
    assert documents == documents[..n] + documents[n..];
    TotalCountAppend(documents[..n], documents[n..]);
  }

  /** The accumulation fails exactly when some result is an error, and is then
      one of those errors. */
  lemma {:induction false} AccumulateFailsIff(results: seq<Result<nat>>)
    ensures Accumulate(results).Err? <==> exists i :: 0 <= i < |results| && results[i].Err?
    ensures Accumulate(results).Err? ==> exists i :: 0 <= i < |results| && results[i] == Accumulate(results)
    decreases |results|
  {
    if results != [] {
      var init := results[..|results| - 1];
      AccumulateFailsIff(init);
      if Accumulate(init).Err? {
        var i :| 0 <= i < |init| && init[i] == Accumulate(init);
        assert results[i] == init[i];
      } else if results[|results| - 1].Ok? {
        forall i | 0 <= i < |results| ensures results[i].Ok? {
          if i < |results| - 1 {
            assert results[i] == init[i];
          }
        }
      }
    }
  }

  /** The count fails exactly when some document fails to parse, and then
      carries only parseMd's error, never a partial sum; an empty list counts 0. */
  lemma TotalCountFailsIff(documents: seq<Text>)
    ensures TotalCount(documents).Err? <==> exists i :: 0 <= i < |documents| && ParseMd(documents[i]).Err?
    ensures TotalCount(documents).Err? ==> TotalCount(documents) == Err(Error(NullishMessage))
    ensures documents == [] ==> TotalCount(documents) == Ok(0)
  {
    var counts := DocumentCounts(documents);
    AccumulateFailsIff(counts);
    if TotalCount(documents).Err? {
      var i :| 0 <= i < |counts| && counts[i] == Accumulate(counts);
      assert counts[i] == DocumentCount(documents[i]);
    }
  }

  /** What a recorder gets from its call to `requestCharCount()`: a count, a
      value that is not a number (the recorders guard against it), or the error
      thrown out of the call by a document `parseMd` rejects. */
  datatype Reading = Number(value: nat) | NotANumber | Thrown(error: Error)

  /** The reading `requestCharCount()` gives for the documents: never NaN; it
      throws exactly when some document fails `parseMd`, and with the default
      `orThrow` error; otherwise it is the total count. */
  function CountReading(documents: seq<Text>): (r: Reading)
    ensures !r.NotANumber?
    ensures r.Thrown? <==> exists i :: 0 <= i < |documents| && ParseMd(documents[i]).Err?
    ensures r.Thrown? ==> r.error == Error(NullishMessage)
    ensures r.Number? ==> TotalCount(documents) == Ok(r.value)
  {
    TotalCountFailsIff(documents);
    match TotalCount(documents)
    case Ok(n) => Number(n)
    case Err(e) => Thrown(e)
  }

  function Sum(xs: seq<nat>): nat
    decreases |xs|
  {
    if xs == [] then 0 else Sum(xs[..|xs| - 1]) + xs[|xs| - 1]
  }

  /** When no result is an error, accumulating them adds up their values. */
  lemma {:induction false} AccumulateOfSuccesses(results: seq<Result<nat>>, values: seq<nat>)
    requires |results| == |values|
    requires forall i :: 0 <= i < |results| ==> results[i] == Ok(values[i])
    ensures Accumulate(results) == Ok(Sum(values))
    decreases |results|
  {
    if results != [] {
      var n := |results| - 1;
      AccumulateOfSuccesses(results[..n], values[..n]);
    }
  }

  /** The non-whitespace length of each document's body, for documents that
      all parse. */
  function BodyLengths(documents: seq<Text>): (lengths: seq<nat>)
    requires forall i :: 0 <= i < |documents| ==> ParseMd(documents[i]).Ok?
    ensures |lengths| == |documents|
  {
    seq(|documents|, i requires 0 <= i < |documents| => |RemoveWhitespace(ParseMd(documents[i]).value.content)|)
  }

  /** When every document parses, `requestCharCount` is the sum over the
      documents of the non-whitespace code units of each body. */
  lemma TotalCountIsSumOfBodies(documents: seq<Text>)
    requires forall i :: 0 <= i < |documents| ==> ParseMd(documents[i]).Ok?
    ensures TotalCount(documents) == Ok(Sum(BodyLengths(documents)))
  {
    AccumulateOfSuccesses(DocumentCounts(documents), BodyLengths(documents));
  }

  /** The order of the documents does not matter. */
  lemma TotalCountSwap(a: seq<Text>, b: seq<Text>)
    requires TotalCount(a).Ok? && TotalCount(b).Ok?
    ensures TotalCount(a + b) == TotalCount(b + a)
  {
    TotalCountAppend(a, b);
    TotalCountAppend(b, a);
  }
}
