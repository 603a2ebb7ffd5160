/** The question-answering endpoint `run_qa`: two early-exit guards (no
    permitted documents, nothing retrieved), the collapse of "no information"
    answers into one canned message, and the compilation of citations. The
    retriever and the retrieval chain are function parameters, so their
    outputs are arbitrary; what the model proves holds for every retriever
    and every chain. */
module Qa {

  import opened Options
  import opened Text
  import opened Decimal
  import opened Corpus
  import Registry

  const NoAccessMessage := "You have no access to any valid documents."
  const NoContentMessage := "Sorry, no relevant content found in your allowed files."
  const Unknown := "Unknown"
  const PageSeparator := ", page "

  /** The number of passages the retriever is configured to return (`k`). */
  const RetrieverK := 4

  /** Substrings of the trimmed, lower-cased answer that mark it as a
      "no information" reply. */
  const TriggerPhrases: seq<string> := [
    "i don't know",
    "the provided document does not contain specific information",
    "no relevant information",
    "not found in the document"
  ]

  /** What the chain call returns: the `result` entry (which may be absent)
      and the `source_documents` it retrieved. */
  datatype ChainResult = ChainResult(result: Option<string>, sourceDocuments: seq<Doc>)

  /** The dictionary `run_qa` returns: an answer alone, or an answer with
      its `sources`. */
  datatype Response = Reply(answer: string) | CitedReply(answer: string, sources: seq<string>)

  /** `run_qa` either returns a response or raises `KeyError` when it reads
      the chain's missing `result` entry to build a cited answer. */
  datatype Outcome = Returned(response: Response) | KeyError(key: string)

  /** Some trigger phrase occurs in the (normalised) answer. */
  predicate IsNoInformation(answer: string) {
    exists k :: 0 <= k < |TriggerPhrases| && Contains(answer, TriggerPhrases[k])
  }

  /** The chain's answer (empty when absent), trimmed, then lower-cased. */
  function NormalisedAnswer(c: ChainResult): string {
    AsciiLower(Strip(c.result.GetOr("")))
  }

  /** The page number in decimal, or "Unknown" when it is missing. */
  function PageText(page: Option<int>): string {
    match page
    case Some(p) => IntToDecimal(p)
    case None => Unknown
  }

  /** One citation: file name, ", page ", page text; a missing field reads "Unknown". */
  function Citation(d: Doc): string {
    d.sourceFile.GetOr(Unknown) + PageSeparator + PageText(d.page)
  }

  function Citations(docs: seq<Doc>): seq<string> {
    seq(|docs|, i requires 0 <= i < |docs| => Citation(docs[i]))
  }

  /** The "Compile sources" loop: one citation per source document, in order. */
  method CompileSources(docs: seq<Doc>) returns (sources: seq<string>)
    ensures sources == Citations(docs)
  {
    sources := [];
    for i := 0 to |docs|
      invariant |sources| == i
      invariant forall j :: 0 <= j < i ==> sources[j] == Citation(docs[j])
    {
      var file := docs[i].sourceFile.GetOr(Unknown);
      var page := PageText(docs[i].page);
      sources := sources + [file + PageSeparator + page];
    }
  }

  /** The answer stage, once something was retrieved. */
  function Synthesize(c: ChainResult): Outcome {
    if c.sourceDocuments == [] || IsNoInformation(NormalisedAnswer(c)) then
      Returned(Reply(NoContentMessage))
    else
      match c.result
      case None => KeyError("result")
      case Some(text) => Returned(CitedReply(Strip(text), Citations(c.sourceDocuments)))
  }

  /** The whole of `run_qa(user_email, query)`. `retrieve` is the first
      retrieval and `chain` the retrieval chain, both over the user's corpus. */
  function QaOutcome(
    access: Registry.Access, email: string, query: string,
    fileExists: string -> bool, load: string -> Option<seq<Doc>>,
    retrieve: (seq<Doc>, string) -> seq<Doc>, chain: (seq<Doc>, string) -> ChainResult): Outcome
  {
    var documents := Assemble(Registry.GetUserFiles(access, email), fileExists, load);
    if documents == [] then Returned(Reply(NoAccessMessage))
    else if retrieve(documents, query) == [] then Returned(Reply(NoContentMessage))
    else Synthesize(chain(documents, query))
  }

  method RunQa(
    access: Registry.Access, email: string, query: string,
    fileExists: string -> bool, load: string -> Option<seq<Doc>>,
    retrieve: (seq<Doc>, string) -> seq<Doc>, chain: (seq<Doc>, string) -> ChainResult)
    returns (outcome: Outcome)
    ensures outcome == QaOutcome(access, email, query, fileExists, load, retrieve, chain)
  {
    var documents, allowedFiles := LoadUserDocs(access, email, fileExists, load);
    if documents == [] {
      return Returned(Reply(NoAccessMessage));
    }
    var relevantDocs := retrieve(documents, query);
    if relevantDocs == [] {
      return Returned(Reply(NoContentMessage));
    }
    var result := chain(documents, query);
    var answer := NormalisedAnswer(result);
    if result.sourceDocuments == [] || IsNoInformation(answer) {
      return Returned(Reply(NoContentMessage));
    }
    var sources := CompileSources(result.sourceDocuments);
    if result.result.None? {
      return KeyError("result");
    }
    assert sources == Citations(result.sourceDocuments);
    return Returned(CitedReply(Strip(result.result.value), sources));
  }

  /** The documents a retrieval returns come from the corpus it searched, at
      most `RetrieverK` of them. */
  predicate RetrievedFrom(found: seq<Doc>, corpus: seq<Doc>) {
    |found| <= RetrieverK && forall d :: d in found ==> d in corpus
  }

  // Properties of the pipeline.

  /** A user absent from the registry gets the no-access reply, never an error. */
  lemma UnknownUserHasNoAccess(
    access: Registry.Access, email: string, query: string,
    fileExists: string -> bool, load: string -> Option<seq<Doc>>,
    retrieve: (seq<Doc>, string) -> seq<Doc>, chain: (seq<Doc>, string) -> ChainResult)
    requires email !in access
    ensures QaOutcome(access, email, query, fileExists, load, retrieve, chain) == Returned(Reply(NoAccessMessage))
  {
  }

  /** The no-access reply comes exactly when no permitted file contributes a
      page: the list is empty, or every file is missing or fails to load. */
  lemma NoAccessIff(
    access: Registry.Access, email: string, query: string,
    fileExists: string -> bool, load: string -> Option<seq<Doc>>,
    retrieve: (seq<Doc>, string) -> seq<Doc>, chain: (seq<Doc>, string) -> ChainResult)
    ensures QaOutcome(access, email, query, fileExists, load, retrieve, chain) == Returned(Reply(NoAccessMessage))
      <==> NoneContribute(Registry.GetUserFiles(access, email), fileExists, load)
  {
    var corpus := Assemble(Registry.GetUserFiles(access, email), fileExists, load);
    AssembleEmptyIff(Registry.GetUserFiles(access, email), fileExists, load);
    if corpus != [] {
      MessagesDiffer();
      if retrieve(corpus, query) != [] {
        SynthesizeNeverNoAccess(chain(corpus, query));
      }
    }
  }

  lemma MessagesDiffer()
    ensures NoContentMessage != NoAccessMessage
  {
    assert |NoContentMessage| == 55 && |NoAccessMessage| == 42;
  }

  /** The answer stage never produces the no-access reply. */
  lemma SynthesizeNeverNoAccess(c: ChainResult)
    ensures Synthesize(c) != Returned(Reply(NoAccessMessage))
  {
    MessagesDiffer();
  }

  /** A user whose every file fails gets the same outcome as a user with no
      files at all. */
  lemma AllFailedIsNoFiles(
    access: Registry.Access, email: string, query: string,
    fileExists: string -> bool, load: string -> Option<seq<Doc>>,
    retrieve: (seq<Doc>, string) -> seq<Doc>, chain: (seq<Doc>, string) -> ChainResult)
    requires forall i :: 0 <= i < |Registry.GetUserFiles(access, email)| ==>
      var f := Normalise(Registry.GetUserFiles(access, email)[i]);
      !fileExists(f) || load(f).None?
    ensures QaOutcome(access, email, query, fileExists, load, retrieve, chain)
         == QaOutcome(access[email := []], email, query, fileExists, load, retrieve, chain)
  {
    AssembleEmptyIff(Registry.GetUserFiles(access, email), fileExists, load);
  }

  /** With an empty corpus, no retrieval and no chain call can influence the
      outcome. */
  lemma EmptyCorpusSkipsRetrieval(
    access: Registry.Access, email: string, query: string,
    fileExists: string -> bool, load: string -> Option<seq<Doc>>,
    retrieve: (seq<Doc>, string) -> seq<Doc>, chain: (seq<Doc>, string) -> ChainResult,
    retrieve': (seq<Doc>, string) -> seq<Doc>, chain': (seq<Doc>, string) -> ChainResult)
    requires NoneContribute(Registry.GetUserFiles(access, email), fileExists, load)
    ensures QaOutcome(access, email, query, fileExists, load, retrieve, chain) == Returned(Reply(NoAccessMessage))
    ensures QaOutcome(access, email, query, fileExists, load, retrieve, chain)
         == QaOutcome(access, email, query, fileExists, load, retrieve', chain')
  {
    AssembleEmptyIff(Registry.GetUserFiles(access, email), fileExists, load);
  }

  /** With an empty first retrieval, the chain (and so the language model)
      cannot influence the outcome. */
  lemma EmptyRetrievalSkipsChain(
    access: Registry.Access, email: string, query: string,
    fileExists: string -> bool, load: string -> Option<seq<Doc>>,
    retrieve: (seq<Doc>, string) -> seq<Doc>, chain: (seq<Doc>, string) -> ChainResult,
    chain': (seq<Doc>, string) -> ChainResult)
    requires var corpus := Assemble(Registry.GetUserFiles(access, email), fileExists, load);
      corpus != [] && retrieve(corpus, query) == []
    ensures QaOutcome(access, email, query, fileExists, load, retrieve, chain) == Returned(Reply(NoContentMessage))
    ensures QaOutcome(access, email, query, fileExists, load, retrieve, chain)
         == QaOutcome(access, email, query, fileExists, load, retrieve, chain')
  {
  }

  /** Every trigger phrase is non-empty and neither starts nor ends with
      white space, so stripping cannot cut an occurrence of it. */
  lemma TriggerPhrasesAreTrimmed()
    ensures forall k :: 0 <= k < |TriggerPhrases| ==>
      var p := TriggerPhrases[k];
      p != [] && !IsSpace(p[0]) && !IsSpace(p[|p| - 1])
  {
    var p0, p1, p2, p3 := TriggerPhrases[0], TriggerPhrases[1], TriggerPhrases[2], TriggerPhrases[3];
    EndsNotSpace(p0, 'i', 'w');
    assert p1[..30] == "the provided document does not";
    assert p1[..30][0] == p1[0];
    EndsNotSpace(p1, 't', 'n');
    EndsNotSpace(p2, 'n', 'n');
    EndsNotSpace(p3, 'n', 't');
  }

  /** A text whose first and last characters are the given non-white-space
      characters neither starts nor ends with white space. */
  lemma EndsNotSpace(p: string, first: char, last: char)
    requires p != [] && p[0] == first && p[|p| - 1] == last
    requires !IsSpace(first) && !IsSpace(last)
    ensures !IsSpace(p[0]) && !IsSpace(p[|p| - 1])
  {
  }

  /** An answer that mentions a trigger phrase in any letter case, anywhere
      (before or after trimming), collapses into the canned no-content reply,
      whatever else it says. */
  lemma TriggerPhraseCollapses(
    access: Registry.Access, email: string, query: string,
    fileExists: string -> bool, load: string -> Option<seq<Doc>>,
    retrieve: (seq<Doc>, string) -> seq<Doc>, chain: (seq<Doc>, string) -> ChainResult,
    text: string, k: nat)
    requires var corpus := Assemble(Registry.GetUserFiles(access, email), fileExists, load);
      corpus != [] && retrieve(corpus, query) != [] && chain(corpus, query).result == Some(text)
    requires k < |TriggerPhrases| && Contains(AsciiLower(text), TriggerPhrases[k])
    ensures QaOutcome(access, email, query, fileExists, load, retrieve, chain) == Returned(Reply(NoContentMessage))
  {
    var corpus := Assemble(Registry.GetUserFiles(access, email), fileExists, load);
    TriggerPhrasesAreTrimmed();
    ContainsSurvivesStrip(AsciiLower(text), TriggerPhrases[k]);
    StripLowerCommute(text);
    assert IsNoInformation(NormalisedAnswer(chain(corpus, query)));
  }

  /** A cited answer comes exactly when both guards pass, the chain cited at
      least one document, its answer holds no trigger phrase and it has a
      `result`; then the answer is the trimmed original-case text and there
      is one citation per source document, in order. */
  lemma CitedReplyIff(
    access: Registry.Access, email: string, query: string,
    fileExists: string -> bool, load: string -> Option<seq<Doc>>,
    retrieve: (seq<Doc>, string) -> seq<Doc>, chain: (seq<Doc>, string) -> ChainResult)
    ensures var corpus := Assemble(Registry.GetUserFiles(access, email), fileExists, load);
      var c := chain(corpus, query);
      var out := QaOutcome(access, email, query, fileExists, load, retrieve, chain);
      && (out.Returned? && out.response.CitedReply? <==>
            corpus != [] && retrieve(corpus, query) != [] && c.sourceDocuments != []
            && !IsNoInformation(NormalisedAnswer(c)) && c.result.Some?)
      && (out.Returned? && out.response.CitedReply? ==>
            && out.response.answer == Strip(c.result.value)
            && |out.response.sources| == |c.sourceDocuments|
            && forall i :: 0 <= i < |c.sourceDocuments| ==>
                 out.response.sources[i] == Citation(c.sourceDocuments[i]))
  {
    var corpus := Assemble(Registry.GetUserFiles(access, email), fileExists, load);
    if corpus != [] && retrieve(corpus, query) != [] {
      SynthesizeCited(chain(corpus, query));
    }
  }

  lemma SynthesizeCited(c: ChainResult)
    ensures Synthesize(c).Returned? && Synthesize(c).response.CitedReply? <==>
      c.sourceDocuments != [] && !IsNoInformation(NormalisedAnswer(c)) && c.result.Some?
    ensures Synthesize(c).Returned? && Synthesize(c).response.CitedReply? ==>
      && Synthesize(c).response.answer == Strip(c.result.value)
      && |Synthesize(c).response.sources| == |c.sourceDocuments|
      && forall i :: 0 <= i < |c.sourceDocuments| ==>
           Synthesize(c).response.sources[i] == Citation(c.sourceDocuments[i])
  {
  }

  /** A chain that cited no document collapses into the no-content reply,
      whatever its `result` holds (present, absent or informative). */
  lemma EmptySourcesCollapse(
    access: Registry.Access, email: string, query: string,
    fileExists: string -> bool, load: string -> Option<seq<Doc>>,
    retrieve: (seq<Doc>, string) -> seq<Doc>, chain: (seq<Doc>, string) -> ChainResult)
    requires var corpus := Assemble(Registry.GetUserFiles(access, email), fileExists, load);
      corpus != [] && retrieve(corpus, query) != [] && chain(corpus, query).sourceDocuments == []
    ensures QaOutcome(access, email, query, fileExists, load, retrieve, chain) == Returned(Reply(NoContentMessage))
  {
  }

  /** The answer stage raises `KeyError("result")` exactly when the chain cited
      a document but gave no `result`: an absent answer reads as empty text,
      in which no trigger phrase occurs. */
  lemma SynthesizeKeyError(c: ChainResult)
    ensures Synthesize(c).KeyError? <==> c.sourceDocuments != [] && c.result.None?
    ensures Synthesize(c).KeyError? ==> Synthesize(c).key == "result"
  {
    if c.result.None? {
      TriggerPhrasesAreTrimmed();
      assert Strip("") == [];
      assert NormalisedAnswer(c) == [];
      assert !IsNoInformation(NormalisedAnswer(c));
    }
  }

  /** The endpoint raises `KeyError("result")` exactly when both guards pass
      and the chain cited a document without giving a `result`. */
  lemma KeyErrorIff(
    access: Registry.Access, email: string, query: string,
    fileExists: string -> bool, load: string -> Option<seq<Doc>>,
    retrieve: (seq<Doc>, string) -> seq<Doc>, chain: (seq<Doc>, string) -> ChainResult)
    ensures var corpus := Assemble(Registry.GetUserFiles(access, email), fileExists, load);
      var c := chain(corpus, query);
      var out := QaOutcome(access, email, query, fileExists, load, retrieve, chain);
      && (out.KeyError? <==>
            corpus != [] && retrieve(corpus, query) != [] && c.sourceDocuments != [] && c.result.None?)
      && (out.KeyError? ==> out.key == "result")
  {
    var corpus := Assemble(Registry.GetUserFiles(access, email), fileExists, load);
    if corpus != [] && retrieve(corpus, query) != [] {
      SynthesizeKeyError(chain(corpus, query));
    }
  }

  /** Isolation: when the chain's source documents come from the user's
      corpus, every citation names the normalised form of one of the user's
      permitted files, and there are at most `RetrieverK` of them. */
  lemma CitationsArePermitted(
    access: Registry.Access, email: string, query: string,
    fileExists: string -> bool, load: string -> Option<seq<Doc>>,
    retrieve: (seq<Doc>, string) -> seq<Doc>, chain: (seq<Doc>, string) -> ChainResult)
    requires var corpus := Assemble(Registry.GetUserFiles(access, email), fileExists, load);
      RetrievedFrom(chain(corpus, query).sourceDocuments, corpus)
    ensures var out := QaOutcome(access, email, query, fileExists, load, retrieve, chain);
      out.Returned? && out.response.CitedReply? ==>
        && |out.response.sources| <= RetrieverK
        && forall i :: 0 <= i < |out.response.sources| ==>
             CitedFile(out.response.sources[i]).Some? &&
             CitedFile(out.response.sources[i]).value in NormalisedNames(Registry.GetUserFiles(access, email))
  {
    var files := Registry.GetUserFiles(access, email);
    var corpus := Assemble(files, fileExists, load);
    var c := chain(corpus, query);
    var out := QaOutcome(access, email, query, fileExists, load, retrieve, chain);
    if out.Returned? && out.response.CitedReply? {
      assert out == Synthesize(c);
      assert out.response.sources == Citations(c.sourceDocuments);
      AssembleIsolation(files, fileExists, load);
      CitationsNamePermitted(c.sourceDocuments, corpus, NormalisedNames(files));
    }
  }

  /** Citations of documents drawn from a corpus whose every segment is tagged
      with a name in `permitted` name only files in `permitted`. */
  lemma CitationsNamePermitted(docs: seq<Doc>, corpus: seq<Doc>, permitted: seq<string>)
    requires forall d :: d in docs ==> d in corpus
    requires forall d :: d in corpus ==> d.sourceFile.Some? && d.sourceFile.value in permitted
    ensures forall i :: 0 <= i < |docs| ==>
      CitedFile(Citations(docs)[i]).Some? && CitedFile(Citations(docs)[i]).value in permitted
  {
    forall i | 0 <= i < |docs|
      ensures CitedFile(Citations(docs)[i]).Some? && CitedFile(Citations(docs)[i]).value in permitted
    {
      assert docs[i] in corpus;
      CitationRoundTrip(docs[i]);
    }
  }

  /** Two users whose permitted files are disjoint never see each other's
      files cited. */
  lemma DisjointUsersAreIsolated(
    access: Registry.Access, email: string, other: string, query: string,
    fileExists: string -> bool, load: string -> Option<seq<Doc>>,
    retrieve: (seq<Doc>, string) -> seq<Doc>, chain: (seq<Doc>, string) -> ChainResult,
    f: string)
    requires var corpus := Assemble(Registry.GetUserFiles(access, email), fileExists, load);
      RetrievedFrom(chain(corpus, query).sourceDocuments, corpus)
    requires f in NormalisedNames(Registry.GetUserFiles(access, other))
    requires f !in NormalisedNames(Registry.GetUserFiles(access, email))
    ensures var out := QaOutcome(access, email, query, fileExists, load, retrieve, chain);
      out.Returned? && out.response.CitedReply? ==>
        forall s :: s in out.response.sources ==> CitedFile(s) != Some(f)
  {
    CitationsArePermitted(access, email, query, fileExists, load, retrieve, chain);
  }

  // Reading a citation back: the file name is everything before the last
  // ", page " (Python's `rfind`), because a page text never holds a comma.

  /** The last index `j <= i` at which `t` occurs in `s`, if any. */
  function LastIndexFrom(s: string, t: string, i: int): (r: Option<nat>)
    ensures r.Some? ==> r.value <= i && OccursAt(s, t, r.value)
    ensures r.Some? ==> forall j :: r.value < j <= i ==> !OccursAt(s, t, j)
    ensures r.None? ==> forall j :: 0 <= j <= i ==> !OccursAt(s, t, j)
    decreases i + 1
  {
    if i < 0 then None
    else if OccursAt(s, t, i) then Some(i)
    else LastIndexFrom(s, t, i - 1)
  }

  /** The file name a citation string names. */
  function CitedFile(s: string): Option<string> {
    match LastIndexFrom(s, PageSeparator, |s| - |PageSeparator|)
    case Some(i) => Some(s[..i])
    case None => None
  }

  /** The page text a citation string names. */
  function CitedPage(s: string): Option<string> {
    match LastIndexFrom(s, PageSeparator, |s| - |PageSeparator|)
    case Some(i) => Some(s[i + |PageSeparator|..])
    case None => None
  }

  predicate NoComma(s: string) {
    forall i :: 0 <= i < |s| ==> s[i] != ','
  }

  lemma PageTextHasNoComma(page: Option<int>)
    ensures NoComma(PageText(page))
  {
    if page.Some? {
      var r := IntToDecimal(page.value);
      forall i | 0 <= i < |r| ensures r[i] != ',' {
        if i > 0 || page.value >= 0 {
          assert page.value < 0 ==> r[i] == r[1..][i - 1];
        }
      }
    }
  }

  /** `file + ", page " + page` mentions the separator at `|file|` and at no
      later index when `page` has no comma. */
  lemma SeparatorIsLast(file: string, page: string)
    requires NoComma(page)
    ensures var s := file + PageSeparator + page;
      LastIndexFrom(s, PageSeparator, |s| - |PageSeparator|) == Some(|file|)
  {
    var s := file + PageSeparator + page;
    var n := |PageSeparator|;
    assert OccursAt(s, PageSeparator, |file|) by {
      assert s[|file|..|file| + n] == PageSeparator;
    }
    forall j | |file| < j <= |s| - n ensures !OccursAt(s, PageSeparator, j) {
      if j < |file| + n {
        assert s[j] == PageSeparator[j - |file|];
      } else {
        assert s[j] == page[j - |file| - n];
      }
      NotOccursAt(s, PageSeparator, j);
    }
    LastIndexFromFinds(s, PageSeparator, |s| - n, |file|);
  }

  /** `t` cannot occur at an index whose character differs from `t`'s first. */
  lemma NotOccursAt(s: string, t: string, j: nat)
    requires j < |s| && t != [] && s[j] != t[0]
    ensures !OccursAt(s, t, j)
  {
    assert j + |t| <= |s| ==> s[j..j + |t|][0] != t[0];
  }

  lemma LastIndexFromFinds(s: string, t: string, i: int, k: nat)
    requires k <= i && OccursAt(s, t, k)
    requires forall j :: k < j <= i ==> !OccursAt(s, t, j)
    ensures LastIndexFrom(s, t, i) == Some(k)
  {
  }

  /** Every citation reads back as the document's file name (or "Unknown")
      and its page text, so the page number itself is recoverable. */
  lemma CitationRoundTrip(d: Doc)
    ensures CitedFile(Citation(d)) == Some(d.sourceFile.GetOr(Unknown))
    ensures CitedPage(Citation(d)) == Some(PageText(d.page))
    ensures d.page.Some? ==> SignedDecimalValue(CitedPage(Citation(d)).value) == d.page.value
  {
    var file, page := d.sourceFile.GetOr(Unknown), PageText(d.page);
    PageTextHasNoComma(d.page);
    SeparatorIsLast(file, page);
    var s := file + PageSeparator + page;
    assert s[..|file|] == file;
    assert s[|file| + |PageSeparator|..] == page;
    if d.page.Some? {
      IntToDecimalRoundTrip(d.page.value);
    }
  }
}
