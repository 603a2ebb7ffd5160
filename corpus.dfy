/** Corpus assembly (`load_user_docs`): normalise every permitted file name to
    a `.pdf` name, skip files that are missing or fail to load, and tag every
    loaded page with the normalised name it was requested under. */
module Corpus {

  import opened Options
  import opened Text
  import Registry

  /** A loaded page (a LangChain `Document`): its text, the page number the
      PDF loader reports, and the `source_file` tag. */
  datatype Doc = Doc(text: string, page: Option<int>, sourceFile: Option<string>)

  const PdfExtension := ".pdf"

  /** The name, lower-cased, ends with the PDF extension. */
  predicate HasPdfExtension(name: string) {
    EndsWith(AsciiLower(name), PdfExtension)
  }

  /** The file name under which a registry entry is looked up: `.pdf` is
      appended unless the name already ends with it in any letter case. */
  function Normalise(name: string): string {
    if HasPdfExtension(name) then name else name + PdfExtension
  }

  /** A normalised name always ends in `.pdf` (in some letter case) and
      extends the original: unchanged if the original already did (`X.PDF`
      stays `X.PDF`), the original followed by `.pdf` otherwise. */
  lemma NormaliseSpec(name: string)
    ensures HasPdfExtension(Normalise(name))
    ensures IsPrefix(name, Normalise(name))
    ensures HasPdfExtension(name) ==> Normalise(name) == name
    ensures !HasPdfExtension(name) ==> Normalise(name) == name + PdfExtension
  {
    if !HasPdfExtension(name) {
      var r := name + PdfExtension;
      assert AsciiLower(r)[|r| - 4..] == PdfExtension;
    }
  }

  lemma NormaliseIdempotent(name: string)
    ensures Normalise(Normalise(name)) == Normalise(name)
  {
    NormaliseSpec(name);
  }

  /** A name without the extension and the same name with `.pdf` written out
      resolve to the same file. */
  lemma NormaliseExplicitExtension(name: string)
    requires !HasPdfExtension(name)
    ensures Normalise(name + PdfExtension) == Normalise(name)
  {
    NormaliseSpec(name);
  }

  /** The normalised form of every permitted name, in registry order. */
  function NormalisedNames(names: seq<string>): (r: seq<string>)
    ensures |r| == |names|
    ensures forall i :: 0 <= i < |names| ==> r[i] == Normalise(names[i])
  {
    seq(|names|, i requires 0 <= i < |names| => Normalise(names[i]))
  }

  /** The pages of one file after the tagging loop: every page keeps its text
      and page number, in loader order, and carries `source_file` = `f`. */
  function Tagged(pages: seq<Doc>, f: string): (r: seq<Doc>)
    ensures |r| == |pages|
    ensures forall j :: 0 <= j < |r| ==>
      r[j].sourceFile == Some(f) && r[j].text == pages[j].text && r[j].page == pages[j].page
  {
    seq(|pages|, j requires 0 <= j < |pages| => pages[j].(sourceFile := Some(f)))
  }

  /** The loop of `load_user_docs` that sets every page's `source_file` to
      the normalised name, overwriting any source tag the loader attached. */
  method TagSourceFile(fileDocs: seq<Doc>, fname: string) returns (tagged: seq<Doc>)
    ensures tagged == Tagged(fileDocs, fname)
  {
    tagged := fileDocs;
    for j := 0 to |fileDocs|
      invariant |tagged| == |fileDocs|
      invariant forall k :: 0 <= k < j ==> tagged[k] == fileDocs[k].(sourceFile := Some(fname))
      invariant forall k :: j <= k < |tagged| ==> tagged[k] == fileDocs[k]
    {
      tagged := tagged[j := tagged[j].(sourceFile := Some(fname))];
    }
  }

  /** What one registry entry contributes to the corpus. `fileExists` stands
      for `os.path.exists` on the file's path and `load` for the PDF loader,
      `None` being a load that raised. */
  function FileSegments(name: string, fileExists: string -> bool, load: string -> Option<seq<Doc>>): seq<Doc>
  {
    var f := Normalise(name);
    if fileExists(f) then
      match load(f)
      case Some(pages) => Tagged(pages, f)
      case None => []
    else []
  }

  /** A file contributes segments only if it exists and loads; they are its
      pages in loader order, each tagged with the normalised name. */
  lemma FileSegmentsContents(name: string, fileExists: string -> bool, load: string -> Option<seq<Doc>>)
    ensures var r := FileSegments(name, fileExists, load);
      && (forall d :: d in r ==> d.sourceFile == Some(Normalise(name)))
      && (r != [] ==> fileExists(Normalise(name)) && load(Normalise(name)).Some?)
      && (fileExists(Normalise(name)) && load(Normalise(name)).Some? ==>
            var pages := load(Normalise(name)).value;
            |r| == |pages| &&
            forall j :: 0 <= j < |r| ==> r[j].text == pages[j].text && r[j].page == pages[j].page)
  {
  }

  /** The concatenation, in order, of what `part` gives for each of `names`. */
  function Flatten(names: seq<string>, part: string -> seq<Doc>): seq<Doc>
    decreases |names|
  {
    if names == [] then []
    else Flatten(names[..|names| - 1], part) + part(names[|names| - 1])
  }

  /** What one registry entry contributes, as a function of the name. */
  function Contribution(fileExists: string -> bool, load: string -> Option<seq<Doc>>): string -> seq<Doc> {
    name => FileSegments(name, fileExists, load)
  }

  /** The corpus that `load_user_docs` returns for the permitted `names`:
      each entry's segments, in registry order. */
  function Assemble(names: seq<string>, fileExists: string -> bool, load: string -> Option<seq<Doc>>): seq<Doc> {
    Flatten(names, Contribution(fileExists, load))
  }

  /** The `allowed_files` list: the normalised names of the files that loaded. */
  function LoadedFiles(names: seq<string>, fileExists: string -> bool, load: string -> Option<seq<Doc>>): (r: seq<string>)
    ensures |r| <= |names|
    ensures forall f :: f in r ==> f in NormalisedNames(names)
    decreases |names|
  {
    if names == [] then []
    else
      var init := names[..|names| - 1];
      var f := Normalise(names[|names| - 1]);
      var rest := LoadedFiles(init, fileExists, load);
      assert forall g :: g in NormalisedNames(init) ==> g in NormalisedNames(names) by {
        forall g | g in NormalisedNames(init) ensures g in NormalisedNames(names) {
          var k :| 0 <= k < |init| && NormalisedNames(init)[k] == g;
          assert NormalisedNames(names)[k] == g;
        }
      }
      assert NormalisedNames(names)[|names| - 1] == f;
      if fileExists(f) && load(f).Some? then rest + [f] else rest
  }

  /** `load_user_docs(user_email)`: the returned corpus and the list of loaded
      files (which the source only logs). */
  method LoadUserDocs(access: Registry.Access, email: string, fileExists: string -> bool, load: string -> Option<seq<Doc>>)
    returns (docs: seq<Doc>, allowedFiles: seq<string>)
    ensures docs == Assemble(Registry.GetUserFiles(access, email), fileExists, load)
    ensures allowedFiles == LoadedFiles(Registry.GetUserFiles(access, email), fileExists, load)
  {
    var filenames := Registry.GetUserFiles(access, email);
    docs, allowedFiles := [], [];
    for i := 0 to |filenames|
      invariant docs == Assemble(filenames[..i], fileExists, load)
      invariant allowedFiles == LoadedFiles(filenames[..i], fileExists, load)
    {
      assert filenames[..i + 1][..i] == filenames[..i];
      var fname := Normalise(filenames[i]);
      if fileExists(fname) {
        var loaded := load(fname);
        if loaded.Some? {
          var fileDocs := TagSourceFile(loaded.value, fname);
          docs := docs + fileDocs;
          allowedFiles := allowedFiles + [fname];
        }
      }
    }
    assert filenames[..|filenames|] == filenames;
  }

  /** Every element of a concatenation comes from the part of one of the names. */
  lemma {:induction false} FlattenMember(names: seq<string>, part: string -> seq<Doc>, d: Doc)
    requires d in Flatten(names, part)
    ensures exists k :: 0 <= k < |names| && d in part(names[k])
    decreases |names|
  {
    var init := names[..|names| - 1];
    if d in Flatten(init, part) {
      FlattenMember(init, part, d);
      var k :| 0 <= k < |init| && d in part(init[k]);
      assert init[k] == names[k];
    } else {
      assert d in part(names[|names| - 1]);
    }
  }

  /** Isolation: every segment of the corpus carries, as its source file, the
      normalised form of one of the permitted names. */
  lemma AssembleIsolation(names: seq<string>, fileExists: string -> bool, load: string -> Option<seq<Doc>>)
    ensures forall d :: d in Assemble(names, fileExists, load) ==>
      d.sourceFile.Some? && d.sourceFile.value in NormalisedNames(names)
  {
    forall d | d in Assemble(names, fileExists, load)
      ensures d.sourceFile.Some? && d.sourceFile.value in NormalisedNames(names)
    {
      FlattenMember(names, Contribution(fileExists, load), d);
      var k :| 0 <= k < |names| && d in Contribution(fileExists, load)(names[k]);
      FileSegmentsContents(names[k], fileExists, load);
      assert NormalisedNames(names)[k] == d.sourceFile.value;
    }
  }

  /** Order: the concatenation over two consecutive lists of names is the
      first's followed by the second's. */
  lemma {:induction false} FlattenConcat(a: seq<string>, b: seq<string>, part: string -> seq<Doc>)
    ensures Flatten(a + b, part) == Flatten(a, part) + Flatten(b, part)
    decreases |b|
  {
    if b == [] {
      assert a + b == a;
    } else {
      var b' := b[..|b| - 1];
      assert (a + b)[..|a + b| - 1] == a + b';
      assert (a + b)[|a + b| - 1] == b[|b| - 1];
      FlattenConcat(a, b', part);
    }
  }

  /** Order for the corpus: the corpus of `a + b` is the corpus of `a`
      followed by the corpus of `b`. */
  lemma AssembleConcat(a: seq<string>, b: seq<string>, fileExists: string -> bool, load: string -> Option<seq<Doc>>)
    ensures Assemble(a + b, fileExists, load) == Assemble(a, fileExists, load) + Assemble(b, fileExists, load)
  {
    FlattenConcat(a, b, Contribution(fileExists, load));
  }

  /** A single name contributes exactly its file's segments. */
  lemma AssembleSingle(name: string, fileExists: string -> bool, load: string -> Option<seq<Doc>>)
    ensures Assemble([name], fileExists, load) == FileSegments(name, fileExists, load)
  {
    var part := Contribution(fileExists, load);
    assert [name][..0] == [];
    assert Flatten([name], part) == Flatten([], part) + part(name);
    assert part(name) == FileSegments(name, fileExists, load);
  }

  /** A file that is missing or fails to load contributes nothing and does not
      stop the files after it from being processed. */
  lemma AssembleSkipsFailed(a: seq<string>, name: string, b: seq<string>, fileExists: string -> bool, load: string -> Option<seq<Doc>>)
    requires !fileExists(Normalise(name)) || load(Normalise(name)).None?
    ensures Assemble(a + [name] + b, fileExists, load) == Assemble(a + b, fileExists, load)
  {
    AssembleConcat(a + [name], b, fileExists, load);
    AssembleConcat(a, [name], fileExists, load);
    AssembleSingle(name, fileExists, load);
    AssembleConcat(a, b, fileExists, load);
  }

  /** `part` gives nothing for any entry of `names`. */
  predicate NoPart(names: seq<string>, part: string -> seq<Doc>) {
    forall i :: 0 <= i < |names| ==> part(names[i]) == []
  }

  lemma NoPartSnoc(names: seq<string>, part: string -> seq<Doc>)
    requires names != []
    ensures NoPart(names, part) <==>
      NoPart(names[..|names| - 1], part) && part(names[|names| - 1]) == []
  {
    var init := names[..|names| - 1];
    assert forall i :: 0 <= i < |init| ==> init[i] == names[i];
  }

  /** A concatenation is empty exactly when every part is. */
  lemma {:induction false} FlattenEmptyIff(names: seq<string>, part: string -> seq<Doc>)
    ensures Flatten(names, part) == [] <==> NoPart(names, part)
    decreases |names|
  {
    if names != [] {
      var front, tail := Flatten(names[..|names| - 1], part), part(names[|names| - 1]);
      assert |front + tail| == |front| + |tail|;
      FlattenEmptyIff(names[..|names| - 1], part);
      NoPartSnoc(names, part);
    }
  }

  /** No entry of `names` contributes a segment. */
  predicate NoneContribute(names: seq<string>, fileExists: string -> bool, load: string -> Option<seq<Doc>>) {
    forall i :: 0 <= i < |names| ==> FileSegments(names[i], fileExists, load) == []
  }

  /** The corpus is empty exactly when no entry contributes a segment, in
      particular when the list is empty or every file fails. */
  lemma AssembleEmptyIff(names: seq<string>, fileExists: string -> bool, load: string -> Option<seq<Doc>>)
    ensures Assemble(names, fileExists, load) == [] <==> NoneContribute(names, fileExists, load)
  {
    FlattenEmptyIff(names, Contribution(fileExists, load));
    assert NoPart(names, Contribution(fileExists, load)) <==> NoneContribute(names, fileExists, load);
  }
}
