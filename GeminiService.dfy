/** `generateWeeklyNewsletter`: the credential guard, the prompt, the single
    model call (its outcome is a parameter), the content fallback, and the
    extraction and de-duplication of the grounding citations. */
module GeminiService {
  import opened Types
  import opened Strings

  // ---------------------------------------------------------------------------
  // The model's response, as far as it is read

  datatype WebRef = WebRef(uri: Option<string>, title: Option<string>)
  datatype Chunk = Chunk(web: Option<WebRef>)
  datatype GroundingMetadata = GroundingMetadata(groundingChunks: Option<seq<Chunk>>)
  datatype Candidate = Candidate(groundingMetadata: Option<GroundingMetadata>)
  datatype Response = Response(text: Option<string>, candidates: Option<seq<Candidate>>)

  /** How the one `generateContent` call ended: a response, or a rejected promise. */
  datatype CallOutcome = Replied(response: Response) | Threw

  /** `MissingApiKey` is the guard's own error; `ApiError` is whatever the call
      threw, passed on unchanged. */
  datatype GenerateError = MissingApiKey | ApiError

  // ---------------------------------------------------------------------------
  // Prompt

  const PromptHead: string :=
    "\n    Act as a witty, humorous, and knowledgeable newsletter editor. \n" +
    "    Your task is to compile a weekly digest for the past 7 days based on the following selected topics: "

  const PromptTail: string :=
    ".\n\n    Guidelines:\n" +
    "    1. **Tone**: Light, refreshing, humorous, but strictly factual. Avoid dry corporate speak." +
    " Make it feel like a smart friend texting you the updates.\n" +
    "    2. **Structure**: \n" +
    "       - A catchy, pun-filled Title for this week's edition.\n" +
    "       - A brief, funny Intro.\n" +
    "       - Separate sections for each selected topic.\n" +
    "       - For each topic, pick the top 1-2 most significant news stories from the LAST WEEK. \n" +
    "       - If nothing major happened, mention a smaller interesting tidbit.\n" +
    "       - A \"Fun Fact of the Week\" at the end.\n" +
    "    3. **Formatting**: Use Markdown. Use H2 (##) for section headers. Use bolding for emphasis.\n" +
    "    4. **Constraints**: Keep it under 800 words total. strictly English.\n\n" +
    "    You MUST use the Google Search tool to find the actual news from the last 7 days.\n  "

  const ThemeSeparator: string := ", "

  /** The prompt: fixed text around the theme labels joined by ", ", in the given order. */
  function Prompt(themes: seq<string>): (p: string)
    ensures |p| == |PromptHead| + |Join(themes, ThemeSeparator)| + |PromptTail|
    ensures p[..|PromptHead|] == PromptHead
    ensures p[|PromptHead|..|p| - |PromptTail|] == Join(themes, ThemeSeparator)
    ensures p[|p| - |PromptTail|..] == PromptTail
  {
    var j := Join(themes, ThemeSeparator);
    var p := PromptHead + j + PromptTail;
    assert p[|PromptHead|..|p| - |PromptTail|] == j;
    p
  }

  /** The topic list can be read back out of the prompt by splitting its middle
      on ", ", provided no label lets a cut begin inside it. */
  lemma PromptRecoversThemes(themes: seq<string>)
    requires |themes| >= 1
    requires forall i :: 0 <= i < |themes| ==> NoCutBefore(themes[i], ThemeSeparator)
    ensures var p := Prompt(themes);
      Split(p[|PromptHead|..|p| - |PromptTail|], ThemeSeparator) == themes
  {
    SplitJoin(themes, ThemeSeparator);
  }

  // ---------------------------------------------------------------------------
  // Content

  const Placeholder: string := "Sorry, I couldn't write the newsletter this time. Writer's block!"

  /** `response.text || placeholder`: an absent or empty text is replaced by the
      placeholder, so the content is never empty. */
  function ContentOf(text: Option<string>): (c: string)
    ensures c != ""
    ensures text.Some? && text.value != "" ==> c == text.value
    ensures text.None? || text.value == "" ==> c == Placeholder
  {
    if text.Some? && text.value != "" then text.value else Placeholder
  }

  // ---------------------------------------------------------------------------
  // Citation extraction

  /** `candidates?.[0]?.groundingMetadata?.groundingChunks || []`. */
  function RawChunks(response: Response): (chunks: seq<Chunk>)
    ensures chunks == [] ||
      (response.candidates.Some? && |response.candidates.value| > 0 &&
       response.candidates.value[0].groundingMetadata.Some? &&
       response.candidates.value[0].groundingMetadata.value.groundingChunks == Some(chunks))
    ensures (response.candidates.None? || response.candidates.value == [] ||
             response.candidates.value[0].groundingMetadata.None?) ==> chunks == []
    ensures (response.candidates.Some? && |response.candidates.value| > 0 &&
             response.candidates.value[0].groundingMetadata.Some? &&
             response.candidates.value[0].groundingMetadata.value.groundingChunks.Some?) ==>
      chunks == response.candidates.value[0].groundingMetadata.value.groundingChunks.value
  {
    match response.candidates
    case None => []
    case Some(cs) =>
      if |cs| == 0 then []
      else
        match cs[0].groundingMetadata
        case None => []
        case Some(m) => m.groundingChunks.GetOr([])
  }

  /** A JavaScript string is truthy when it is present and not empty. */
  predicate Truthy(s: Option<string>) {
    s.Some? && s.value != ""
  }

  /** A chunk yields a citation when its web reference has a truthy uri and title. */
  predicate Cited(chunk: Chunk) {
    chunk.web.Some? && Truthy(chunk.web.value.uri) && Truthy(chunk.web.value.title)
  }

  function SourceOf(chunk: Chunk): (s: GroundingSource)
    requires Cited(chunk)
    ensures s.uri != "" && s.title != ""
  {
    GroundingSource(chunk.web.value.title.value, chunk.web.value.uri.value)
  }

  /** What the extraction loop collects from `chunks`: one citation per cited
      chunk, in chunk order. */
  function Extracted(chunks: seq<Chunk>): (r: seq<GroundingSource>)
    decreases |chunks|
  {
    if |chunks| == 0 then []
    else
      var last := chunks[|chunks| - 1];
      Extracted(chunks[..|chunks| - 1]) + (if Cited(last) then [SourceOf(last)] else [])
  }

  /** The `forEach` loop that pushes `{uri, title}` for every chunk whose web
      reference has both. */
  method ExtractSources(rawChunks: seq<Chunk>) returns (sources: seq<GroundingSource>)
    ensures sources == Extracted(rawChunks)
  {
    sources := [];
    var i := 0;
    while i < |rawChunks|
      invariant 0 <= i <= |rawChunks|
      invariant sources == Extracted(rawChunks[..i])
    {
      var chunk := rawChunks[i];
      if chunk.web.Some? && Truthy(chunk.web.value.uri) && Truthy(chunk.web.value.title) {
        sources := sources + [GroundingSource(chunk.web.value.title.value, chunk.web.value.uri.value)];
      }
      assert rawChunks[..i + 1][..i] == rawChunks[..i];
      i := i + 1;
    }
    assert rawChunks[..|rawChunks|] == rawChunks;
  }

  /** Extraction distributes over concatenation: the citations keep the order
      of their chunks. */
  lemma {:induction false} ExtractedAppend(a: seq<Chunk>, b: seq<Chunk>)
    ensures Extracted(a + b) == Extracted(a) + Extracted(b)
    decreases |b|
  {
    if |b| == 0 {
      assert a + b == a;
    } else {
      var b' := b[..|b| - 1];
      assert (a + b)[..|a + b| - 1] == a + b';
      assert (a + b)[|a + b| - 1] == b[|b| - 1];
      ExtractedAppend(a, b');
    }
  }

  /** A citation is extracted exactly when some chunk is cited and maps to it;
      every extracted citation has a non-empty uri and title. */
  lemma {:induction false} ExtractedMembers(chunks: seq<Chunk>, s: GroundingSource)
    ensures s in Extracted(chunks) <==> exists i :: 0 <= i < |chunks| && Cited(chunks[i]) && SourceOf(chunks[i]) == s
    ensures s in Extracted(chunks) ==> s.uri != "" && s.title != ""
    decreases |chunks|
  {
    if |chunks| > 0 {
      var init := chunks[..|chunks| - 1];
      var last := chunks[|chunks| - 1];
      ExtractedMembers(init, s);
      if s in Extracted(chunks) && !(s in Extracted(init)) {
        assert Cited(last) && SourceOf(last) == s;
      }
      if exists i :: 0 <= i < |chunks| && Cited(chunks[i]) && SourceOf(chunks[i]) == s {
        var i :| 0 <= i < |chunks| && Cited(chunks[i]) && SourceOf(chunks[i]) == s;
        if i < |chunks| - 1 {
          assert init[i] == chunks[i];
        }
      }
    }
  }

  // ---------------------------------------------------------------------------
  // De-duplication by uri

  /** `a.findIndex(t => t.uri === uri)`: the first index with that uri, or -1. */
  function FindIndexByUri(a: seq<GroundingSource>, uri: string): (k: int)
    ensures -1 <= k < |a|
    ensures k >= 0 ==> a[k].uri == uri && forall j :: 0 <= j < k ==> a[j].uri != uri
    ensures k == -1 ==> forall j :: 0 <= j < |a| ==> a[j].uri != uri
  {
    if |a| == 0 then -1
    else if a[0].uri == uri then 0
    else
      var k := FindIndexByUri(a[1..], uri);
      if k == -1 then -1 else k + 1
  }

  /** `a.filter((v, i, a) => a.findIndex(t => t.uri === v.uri) === i)`, applied
      to the first `n` elements. */
  function KeepFirst(a: seq<GroundingSource>, n: nat): seq<GroundingSource>
    requires n <= |a|
  {
    if n == 0 then []
    else KeepFirst(a, n - 1) + (if FindIndexByUri(a, a[n - 1].uri) == n - 1 then [a[n - 1]] else [])
  }

  predicate UniqueUris(a: seq<GroundingSource>) {
    forall i, j :: 0 <= i < j < |a| ==> a[i].uri != a[j].uri
  }

  /** The set of uris occurring in `a`. */
  function Uris(a: seq<GroundingSource>): set<string> {
    if |a| == 0 then {} else Uris(a[..|a| - 1]) + {a[|a| - 1].uri}
  }

  /** A uri is in `Uris(a)` exactly when some element of `a` carries it. */
  lemma {:induction false} UrisMembers(a: seq<GroundingSource>, u: string)
    ensures u in Uris(a) <==> exists i :: 0 <= i < |a| && a[i].uri == u
    decreases |a|
  {
    if |a| > 0 {
      var init := a[..|a| - 1];
      UrisMembers(init, u);
      if exists i :: 0 <= i < |a| && a[i].uri == u {
        var i :| 0 <= i < |a| && a[i].uri == u;
        if i < |a| - 1 { assert init[i] == a[i]; }
      }
      if u in Uris(init) {
        var i :| 0 <= i < |init| && init[i].uri == u;
        assert a[i] == init[i];
      }
    }
  }

  /** Each element kept by the first `n` steps is the first occurrence of its
      uri, at a position below `n`; they appear in increasing order of that
      position. */
  lemma {:induction false} KeepFirstPositions(a: seq<GroundingSource>, n: nat)
    requires n <= |a|
    ensures forall k :: 0 <= k < |KeepFirst(a, n)| ==>
      0 <= FindIndexByUri(a, KeepFirst(a, n)[k].uri) < n &&
      KeepFirst(a, n)[k] == a[FindIndexByUri(a, KeepFirst(a, n)[k].uri)]
    ensures forall k, l :: 0 <= k < l < |KeepFirst(a, n)| ==>
      FindIndexByUri(a, KeepFirst(a, n)[k].uri) < FindIndexByUri(a, KeepFirst(a, n)[l].uri)
  {
    if n > 0 {
      KeepFirstPositions(a, n - 1);
      var prev := KeepFirst(a, n - 1);
      var e := a[n - 1];
      var r := KeepFirst(a, n);
      if FindIndexByUri(a, e.uri) == n - 1 {
        assert r == prev + [e];
        assert forall k :: 0 <= k < |prev| ==> r[k] == prev[k];
      } else {
        assert r == prev;
        forall k | 0 <= k < |r|
          ensures 0 <= FindIndexByUri(a, r[k].uri) < n && r[k] == a[FindIndexByUri(a, r[k].uri)]
        {
          assert r[k] == prev[k];
        }
      }
    }
  }

  /** The first `n` steps keep every uri that occurs among `a[..n]`. */
  lemma {:induction false} KeepFirstUris(a: seq<GroundingSource>, n: nat)
    requires n <= |a|
    ensures Uris(KeepFirst(a, n)) == Uris(a[..n])
  {
    if n > 0 {
      KeepFirstUris(a, n - 1);
      var prev := KeepFirst(a, n - 1);
      var e := a[n - 1];
      var f := FindIndexByUri(a, e.uri);
      assert 0 <= f <= n - 1;
      assert a[..n][..n - 1] == a[..n - 1];
      assert Uris(a[..n]) == Uris(a[..n - 1]) + {e.uri};
      if f == n - 1 {
        var r := prev + [e];
        assert KeepFirst(a, n) == r;
        assert r[..|r| - 1] == prev;
      } else {
        assert KeepFirst(a, n) == prev;
        assert a[..n - 1][f].uri == e.uri;
        UrisMembers(a[..n - 1], e.uri);
      }
    }
  }

  /** `sources.filter((v, i, a) => a.findIndex(t => t.uri === v.uri) === i)`:
      no two results share a uri; every uri of the input is kept; each result
      is the first element of the input with its uri (so its title is that
      occurrence's title); and the results follow the order of those first
      occurrences, which makes the output a subsequence of the input. */
  function Dedupe(a: seq<GroundingSource>): (r: seq<GroundingSource>)
    ensures UniqueUris(r)
    ensures Uris(r) == Uris(a)
    ensures forall k :: 0 <= k < |r| ==>
      0 <= FindIndexByUri(a, r[k].uri) && r[k] == a[FindIndexByUri(a, r[k].uri)]
    ensures forall k, l :: 0 <= k < l < |r| ==> FindIndexByUri(a, r[k].uri) < FindIndexByUri(a, r[l].uri)
    ensures |r| <= |a|
  {
    KeepFirstPositions(a, |a|);
    KeepFirstUris(a, |a|);
    assert a[..|a|] == a;
    var r := KeepFirst(a, |a|);
    KeepFirstLength(a, |a|);
    r
  }

  lemma {:induction false} KeepFirstLength(a: seq<GroundingSource>, n: nat)
    requires n <= |a|
    ensures |KeepFirst(a, n)| <= n
  {
    if n > 0 {
      KeepFirstLength(a, n - 1);
    }
  }

  /** On a list whose uris are already distinct the filter keeps everything. */
  lemma {:induction false} KeepFirstOfUnique(a: seq<GroundingSource>, n: nat)
    requires n <= |a| && UniqueUris(a)
    ensures KeepFirst(a, n) == a[..n]
  {
    if n > 0 {
      KeepFirstOfUnique(a, n - 1);
      var f := FindIndexByUri(a, a[n - 1].uri);
      assert f == n - 1;
      assert a[..n] == a[..n - 1] + [a[n - 1]];
    }
  }

  /** De-duplicating twice is the same as de-duplicating once. */
  lemma DedupeIdempotent(a: seq<GroundingSource>)
    ensures Dedupe(Dedupe(a)) == Dedupe(a)
  {
    var r := Dedupe(a);
    KeepFirstOfUnique(r, |r|);
    assert r[..|r|] == r;
  }

  // ---------------------------------------------------------------------------
  // The whole operation

  /** The newsletter built from a response: the content with its fallback and
      the de-duplicated citations of the first candidate. */
  function NewsletterFrom(response: Response, now: Timestamp): (d: NewsletterData)
    ensures d.content == ContentOf(response.text) && d.content != ""
    ensures d.sources == Dedupe(Extracted(RawChunks(response)))
    ensures UniqueUris(d.sources)
    ensures Uris(d.sources) == Uris(Extracted(RawChunks(response)))
    ensures forall s :: s in d.sources ==> s in Extracted(RawChunks(response))
    ensures d.generatedAt == now
  {
    var extracted := Extracted(RawChunks(response));
    var sources := Dedupe(extracted);
    assert forall s :: s in sources ==> s in extracted by {
      forall s | s in sources ensures s in extracted {
        var k :| 0 <= k < |sources| && sources[k] == s;
        assert s == extracted[FindIndexByUri(extracted, s.uri)];
      }
    }
    NewsletterData(ContentOf(response.text), sources, now)
  }

  /** `generateWeeklyNewsletter(themes)`. `apiKeyPresent` stands for the
      credential in the environment and `reply` for the outcome of the model
      call; `request` is the prompt sent to the model, `None` when no call is
      made. */
  method GenerateWeeklyNewsletter(apiKeyPresent: bool, themes: seq<string>, reply: CallOutcome, now: Timestamp)
    returns (request: Option<string>, result: Result<NewsletterData, GenerateError>)
    ensures !apiKeyPresent ==> request == None && result == Failure(MissingApiKey)
    ensures apiKeyPresent ==> request == Some(Prompt(themes))
    ensures apiKeyPresent && reply.Threw? ==> result == Failure(ApiError)
    ensures apiKeyPresent && reply.Replied? ==> result == Success(NewsletterFrom(reply.response, now))
  {
    if !apiKeyPresent {
      return None, Failure(MissingApiKey);
    }
    var prompt := PromptHead + Join(themes, ThemeSeparator) + PromptTail;
    request := Some(prompt);
    match reply
    case Threw =>
      result := Failure(ApiError);
    case Replied(response) =>
      var content := if response.text.Some? && response.text.value != "" then response.text.value else Placeholder;
      var rawChunks := RawChunks(response);
      var sources := ExtractSources(rawChunks);
      var uniqueSources := Dedupe(sources);
      result := Success(NewsletterData(content, uniqueSources, now));
  }
}
