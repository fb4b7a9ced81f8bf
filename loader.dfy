/** The prompt catalogue of the third demo server: `PromptLoader` turns a
    directory of `.txt` prompt files, each a YAML header between two
    `---` lines followed by the prompt text, into an index keyed by prompt
    name, and answers read-only queries over that index.

    The directory is an input sequence of entries (a failed directory read
    is the empty sequence), and the YAML parser with the cast that follows
    it is a function parameter that either fails or yields a well-formed
    record. */
module Loader {
  import opened Wrappers
  import opened JsString
  import opened JsArray
  import opened JsMap

  /** The header fields of a prompt file. */
  datatype PromptMetadata = PromptMetadata(
    name: string,
    languages: seq<string>,
    description: string,
    version: string,
    category: Option<string>)

  /** A prompt as the index holds it: its header and its trimmed body. */
  datatype LoadedPrompt = LoadedPrompt(metadata: PromptMetadata, content: string)

  /** One element of the listing. */
  datatype PromptSummary = PromptSummary(name: string, metadata: PromptMetadata)

  /** A name the directory listing returned, with the text that reading the
      file returns, or None when reading it throws. */
  datatype DirEntry = DirEntry(name: string, content: Option<string>)

  /** `yaml.load(header) as PromptMetadata`: None when the parser throws. */
  type HeaderParser = string -> Option<PromptMetadata>

  /** The index, `this.prompts`: a map from prompt name to prompt that
      iterates in insertion order. */
  type PromptIndex = InsertionMap<string, LoadedPrompt>

  /** The line that opens and closes the header. */
  const Delimiter: string := "---\n"

  /** The only file name extension the loader considers. */
  const Extension: string := ".txt"

  /** What the loader makes of the text of one `.txt` file. */
  datatype FileOutcome =
    | NoFrontMatter              // does not start with the delimiter: skipped
    | NoBody                     // no second delimiter, so fewer than three pieces: skipped
    | HeaderError                // the header does not parse: reported and skipped
    | Parsed(prompt: LoadedPrompt)

  /** The position of the delimiter that closes the header of a text that
      starts with the delimiter, or -1 when there is none. */
  function HeaderEnd(text: string): (e: int)
    requires StartsWith(text, Delimiter)
  {
    IndexOf(text, Delimiter, |Delimiter|)
  }

  /** The header of a text that starts with the delimiter and has a second
      one: everything between the two. */
  function HeaderText(text: string): (h: string)
    requires StartsWith(text, Delimiter) && HeaderEnd(text) != -1
  {
    text[|Delimiter|..HeaderEnd(text)]
  }

  /** The body of such a text: everything after the second delimiter. */
  function BodyText(text: string): (b: string)
    requires StartsWith(text, Delimiter) && HeaderEnd(text) != -1
  {
    text[HeaderEnd(text) + |Delimiter|..]
  }

  /** The text opens with the delimiter, has a second one, and its header
      parses. */
  predicate HasPrompt(text: string, parse: HeaderParser)
  {
    StartsWith(text, Delimiter) && HeaderEnd(text) != -1 && parse(HeaderText(text)).Some?
  }

  /** The front-matter split of one file: the header is the text between the
      opening delimiter and the next occurrence of the delimiter, wherever in
      a line that occurs; the prompt text is everything after that second
      occurrence, trimmed. */
  function ParseFile(text: string, parse: HeaderParser): (o: FileOutcome)
    ensures o.NoFrontMatter? <==> !StartsWith(text, Delimiter)
    ensures o.NoBody? <==> StartsWith(text, Delimiter) && HeaderEnd(text) == -1
    ensures o.HeaderError? <==>
      StartsWith(text, Delimiter) && HeaderEnd(text) != -1 && parse(HeaderText(text)).None?
    ensures o.Parsed? <==> HasPrompt(text, parse)
    ensures o.Parsed? ==>
      o.prompt == LoadedPrompt(parse(HeaderText(text)).value, Trim(BodyText(text)))
  {
    if StartsWith(text, Delimiter) then
      var parts := Split(text, Delimiter);
      SplitFrontMatter(text, Delimiter);
      if |parts| >= 3 then
        match parse(parts[1])
        case None => HeaderError
        case Some(metadata) => Parsed(LoadedPrompt(metadata, Trim(Join(parts[2..], Delimiter))))
      else NoBody
    else NoFrontMatter
  }

  /** Every prompt is stored under its own name. */
  ghost predicate KeyedByName(index: PromptIndex) {
    forall k :: k in index.store ==> index.store[k].metadata.name == k
  }

  ghost predicate WellFormed(index: PromptIndex) {
    index.Valid() && KeyedByName(index)
  }

  /** The index after one readable `.txt` file: a parsed prompt is set under
      its name, replacing any prompt of that name; any other outcome leaves
      the index as it was. */
  function LoadFile(index: PromptIndex, text: string, parse: HeaderParser): (r: PromptIndex)
    requires WellFormed(index)
    ensures WellFormed(r)
  {
    match ParseFile(text, parse)
    case Parsed(p) => index.Set(p.metadata.name, p)
    case _ => index
  }

  /** `f.endsWith('.txt')` */
  predicate IsTxt(f: DirEntry) {
    EndsWith(f.name, Extension)
  }

  /** The names the loop visits: those ending in `.txt`, in listing order. */
  function TxtFiles(files: seq<DirEntry>): (r: seq<DirEntry>)
    ensures forall f :: f in r <==> f in files && EndsWith(f.name, Extension)
    ensures IsSubsequence(r, files)
  {
    Filter(files, IsTxt)
  }

  /** The index after the loop over `.txt` files: each readable file is
      loaded in turn; a file that cannot be read ends the loop, because its
      exception leaves the loop for the handler around the whole load. */
  function LoadEntries(index: PromptIndex, files: seq<DirEntry>, parse: HeaderParser): (r: PromptIndex)
    requires WellFormed(index)
    ensures WellFormed(r)
    decreases |files|
  {
    if files == [] then index
    else match files[0].content
      case None => index
      case Some(text) => LoadEntries(LoadFile(index, text, parse), files[1..], parse)
  }

  /** Loading a readable file, then the files after it. */
  lemma LoadEntriesCons(index: PromptIndex, file: DirEntry, rest: seq<DirEntry>, parse: HeaderParser)
    requires WellFormed(index) && file.content.Some?
    ensures LoadEntries(index, [file] + rest, parse) ==
      LoadEntries(LoadFile(index, file.content.value, parse), rest, parse)
  {
    assert ([file] + rest)[0] == file && ([file] + rest)[1..] == rest;
  }

  /** The index after loading the directory listing `files` into `index`. */
  function LoadAll(index: PromptIndex, files: seq<DirEntry>, parse: HeaderParser): (r: PromptIndex)
    requires WellFormed(index)
    ensures WellFormed(r)
  {
    LoadEntries(index, TxtFiles(files), parse)
  }

  /** The languages of the prompts in `prompts`, gathered into one set. */
  function LanguagesOf(prompts: seq<LoadedPrompt>): (r: set<string>)
    ensures forall l :: l in r <==> exists i :: 0 <= i < |prompts| && l in prompts[i].metadata.languages
  {
    if prompts == [] then {}
    else
      var last := prompts[|prompts| - 1];
      var r := LanguagesOf(prompts[..|prompts| - 1]) + (set l | l in last.metadata.languages);
      assert forall i :: 0 <= i < |prompts| - 1 ==> prompts[..|prompts| - 1][i] == prompts[i];
      r
  }

  class PromptLoader {
    /** `this.prompts` */
    var prompts: PromptIndex

    ghost predicate Valid()
      reads this
    {
      WellFormed(prompts)
    }

    /** A loader with an empty index. */
    constructor ()
      ensures Valid()
      ensures prompts == EmptyMap()
    {
      prompts := EmptyMap();
    }

    /** `loadAllPrompts()`: loads every `.txt` file of the listing, in
        order, into the index. */
    method LoadAllPrompts(files: seq<DirEntry>, parse: HeaderParser)
      requires Valid()
      modifies this
      ensures Valid()
      ensures prompts == LoadAll(old(prompts), files, parse)
    {
      var candidates := TxtFiles(files);
      var i := 0;
      while i < |candidates|
        invariant 0 <= i <= |candidates|
        invariant WellFormed(prompts)
        invariant LoadEntries(prompts, candidates[i..], parse) == LoadAll(old(prompts), files, parse)
      {
        var file := candidates[i];
        ghost var rest := candidates[i + 1..];
        assert candidates[i..] == [file] + rest;
        if file.content.None? {
          // the read throws: the load ends here, keeping what it has indexed
          return;
        }
        var text := file.content.value;
        ghost var before := prompts;
        if StartsWith(text, Delimiter) {
          var parts := Split(text, Delimiter);
          if |parts| >= 3 {
            var header := parse(parts[1]);
            if header.Some? {
              var metadata := header.value;
              var body := Trim(Join(parts[2..], Delimiter));
              assert ParseFile(text, parse) == Parsed(LoadedPrompt(metadata, body));
              prompts := prompts.Set(metadata.name, LoadedPrompt(metadata, body));
            } else {
              assert ParseFile(text, parse) == HeaderError;
            }
          } else {
            assert ParseFile(text, parse) == NoBody;
          }
        } else {
          assert ParseFile(text, parse) == NoFrontMatter;
        }
        assert prompts == LoadFile(before, text, parse);
        LoadEntriesCons(before, file, rest, parse);
        assert LoadEntries(prompts, rest, parse) == LoadAll(old(prompts), files, parse);
        i := i + 1;
      }
    }

    /** `getAllSupportedLanguages()`: every language of every indexed prompt,
        each once, in ascending code unit order. */
    method GetAllSupportedLanguages() returns (languages: seq<string>)
      requires Valid()
      ensures StrictlyAscending(languages)
      ensures forall l :: l in languages <==>
        exists name :: name in prompts.store && l in prompts.store[name].metadata.languages
    {
      var values := prompts.Values();
      var seen: seq<string> := [];
      var i := 0;
      while i < |values|
        invariant 0 <= i <= |values|
        invariant Distinct(seen)
        invariant forall l :: l in seen <==> l in LanguagesOf(values[..i])
      {
        var langs := values[i].metadata.languages;
        var j := 0;
        while j < |langs|
          invariant 0 <= j <= |langs|
          invariant Distinct(seen)
          invariant forall l :: l in seen <==> l in LanguagesOf(values[..i]) || l in langs[..j]
        {
          if langs[j] !in seen {
            seen := seen + [langs[j]];
          }
          assert langs[..j + 1] == langs[..j] + [langs[j]];
          j := j + 1;
        }
        assert langs[..j] == langs;
        LanguagesOfExtend(values, i);
        i := i + 1;
      }
      assert values[..i] == values;
      languages := SortByCodeUnits(seen);
      SortDistinctIsStrict(seen);
      forall l ensures l in languages <==> l in seen {
        assert l in multiset(languages) <==> l in multiset(seen);
      }
      IndexLanguages(prompts);
    }

    /** `getPromptByName(name)`: the prompt stored under `name`, or
        `undefined` (None) when there is none. */
    function GetPromptByName(name: string): (r: Option<LoadedPrompt>)
      reads this
      requires Valid()
      ensures r.Some? <==> name in prompts.store
      ensures r.Some? ==> r.value == prompts.store[name] && r.value.metadata.name == name
    {
      prompts.Get(name)
    }

    /** `getPromptsByLanguage(language)`: in index order, the prompts whose
        languages include `language` (compared exactly). */
    function GetPromptsByLanguage(language: string): (r: seq<LoadedPrompt>)
      reads this
      requires Valid()
      ensures IsSubsequence(r, prompts.Values())
      ensures forall p :: p in r <==> p in prompts.store.Values && language in p.metadata.languages
    {
      var r := Filter(prompts.Values(), (p: LoadedPrompt) => language in p.metadata.languages);
      ValuesAreStored(prompts);
      r
    }

    /** `getPromptsByCategory(category)`: in index order, the prompts whose
        category is `category`; prompts without a category never match. */
    function GetPromptsByCategory(category: string): (r: seq<LoadedPrompt>)
      reads this
      requires Valid()
      ensures IsSubsequence(r, prompts.Values())
      ensures forall p :: p in r <==> p in prompts.store.Values && p.metadata.category == Some(category)
    {
      var r := Filter(prompts.Values(), (p: LoadedPrompt) => p.metadata.category == Some(category));
      ValuesAreStored(prompts);
      r
    }

    /** `listAllPrompts()`: one name and header per indexed prompt, in index
        order; each name is the key its prompt is stored under. */
    function ListAllPrompts(): (r: seq<PromptSummary>)
      reads this
      requires Valid()
      ensures |r| == |prompts.order| == |prompts.store|
      ensures forall i :: 0 <= i < |r| ==>
        && r[i].name == prompts.order[i] && r[i].name in prompts.store
        && r[i].metadata == prompts.store[r[i].name].metadata
        && r[i].name == r[i].metadata.name
      ensures Distinct(seq(|r|, i requires 0 <= i < |r| => r[i].name))
    {
      var entries := prompts.Entries();
      var r := seq(|entries|, i requires 0 <= i < |entries| => PromptSummary(entries[i].0, entries[i].1.metadata));
      assert prompts.Size() == |prompts.store|;
      assert seq(|r|, i requires 0 <= i < |r| => r[i].name) == prompts.order;
      r
    }
  }

  lemma LanguagesOfExtend(prompts: seq<LoadedPrompt>, i: nat)
    requires i < |prompts|
    ensures LanguagesOf(prompts[..i + 1]) == LanguagesOf(prompts[..i]) + set l | l in prompts[i].metadata.languages
  {
    assert prompts[..i + 1][..i] == prompts[..i];
  }

  /** A well-formed index holds no prompt twice: each is stored under its
      own name, and each name is listed once. */
  lemma ValuesDistinct(index: PromptIndex)
    requires WellFormed(index)
    ensures Distinct(index.Values())
  {
    var vs := index.Values();
    forall i, j | 0 <= i < j < |vs| ensures vs[i] != vs[j] {
      assert index.order[i] in index.store && index.order[j] in index.store;
      assert vs[i].metadata.name == index.order[i];
      assert vs[j].metadata.name == index.order[j];
    }
  }

  /** The contracts of the two filtering queries fix their results: an
      order-keeping selection of the index's values that holds exactly the
      stored prompts satisfying `keep` is the filtered values. */
  lemma QueryIsFilter(index: PromptIndex, r: seq<LoadedPrompt>, keep: LoadedPrompt -> bool)
    requires WellFormed(index)
    requires IsSubsequence(r, index.Values())
    requires forall p :: p in r <==> p in index.store.Values && keep(p)
    ensures r == Filter(index.Values(), keep)
  {
    ValuesDistinct(index);
    ValuesAreStored(index);
    FilterUnique(r, index.Values(), keep);
  }

  /** The languages of the index's values are those of its stored prompts. */
  lemma IndexLanguages(index: PromptIndex)
    requires index.Valid()
    ensures forall l :: l in LanguagesOf(index.Values()) <==>
      exists name :: name in index.store && l in index.store[name].metadata.languages
  {
    var vs := index.Values();
    forall l | l in LanguagesOf(vs)
      ensures exists name :: name in index.store && l in index.store[name].metadata.languages
    {
      var k :| 0 <= k < |vs| && l in vs[k].metadata.languages;
      assert index.order[k] in index.store;
    }
    forall l, name | name in index.store && l in index.store[name].metadata.languages
      ensures l in LanguagesOf(vs)
    {
      var k :| 0 <= k < |index.order| && index.order[k] == name;
      assert l in vs[k].metadata.languages;
    }
  }

  /** The values of the index are exactly its stored prompts. */
  lemma ValuesAreStored(index: PromptIndex)
    requires index.Valid()
    ensures forall p :: p in index.Values() <==> p in index.store.Values
  {
    var vs := index.Values();
    forall p | p in index.store.Values ensures p in vs {
      var k :| k in index.store && index.store[k] == p;
      var i :| 0 <= i < |index.order| && index.order[i] == k;
      assert vs[i] == p;
    }
  }
}
