/** What loading promises about the index: which files change it and how,
    that one bad file does not disturb the others, that an unreadable file
    ends the load, that the last prompt of a name wins, and that keys keep
    their places. */
module LoaderProperties {
  import opened Wrappers
  import opened JsString
  import opened JsArray
  import opened JsMap
  import opened Loader

  /** A file that loading passes over: its name does not end in `.txt`, or
      it can be read but does not yield a prompt. */
  predicate PassedOver(f: DirEntry, parse: HeaderParser)
  {
    !EndsWith(f.name, Extension) || (f.content.Some? && !ParseFile(f.content.value, parse).Parsed?)
  }

  lemma {:induction false} LoadEntriesSkips(index: PromptIndex, a: seq<DirEntry>, f: DirEntry, b: seq<DirEntry>, parse: HeaderParser)
    requires WellFormed(index)
    requires f.content.Some? && !ParseFile(f.content.value, parse).Parsed?
    ensures LoadEntries(index, a + [f] + b, parse) == LoadEntries(index, a + b, parse)
    decreases |a|
  {
    var afb, ab := a + [f] + b, a + b;
    if a == [] {
      assert afb == [f] + b && ab == b;
      assert afb[0] == f && afb[1..] == b;
      assert LoadFile(index, f.content.value, parse) == index;
    } else {
      assert afb[0] == a[0] && ab[0] == a[0];
      assert afb[1..] == a[1..] + [f] + b;
      assert ab[1..] == a[1..] + b;
      if a[0].content.Some? {
        LoadEntriesSkips(LoadFile(index, a[0].content.value, parse), a[1..], f, b, parse);
      }
    }
  }

  lemma {:induction false} LoadEntriesStops(index: PromptIndex, a: seq<DirEntry>, f: DirEntry, b: seq<DirEntry>, parse: HeaderParser)
    requires WellFormed(index)
    requires f.content.None?
    ensures LoadEntries(index, a + [f] + b, parse) == LoadEntries(index, a, parse)
    decreases |a|
  {
    if a == [] {
      assert a + [f] + b == [f] + b;
    } else {
      assert (a + [f] + b)[0] == a[0];
      assert (a + [f] + b)[1..] == a[1..] + [f] + b;
      if a[0].content.Some? {
        LoadEntriesStops(LoadFile(index, a[0].content.value, parse), a[1..], f, b, parse);
      }
    }
  }

  lemma {:induction false} LoadEntriesAppend(index: PromptIndex, a: seq<DirEntry>, b: seq<DirEntry>, parse: HeaderParser)
    requires WellFormed(index)
    requires forall i :: 0 <= i < |a| ==> a[i].content.Some?
    ensures LoadEntries(index, a + b, parse) == LoadEntries(LoadEntries(index, a, parse), b, parse)
    decreases |a|
  {
    if a == [] {
      assert a + b == b;
    } else {
      assert (a + b)[0] == a[0];
      assert (a + b)[1..] == a[1..] + b;
      LoadEntriesAppend(LoadFile(index, a[0].content.value, parse), a[1..], b, parse);
    }
  }

  lemma TxtFilesConcat(a: seq<DirEntry>, b: seq<DirEntry>)
    ensures TxtFiles(a + b) == TxtFiles(a) + TxtFiles(b)
  {
    FilterConcat(a, b, IsTxt);
  }

  lemma TxtFilesOne(f: DirEntry)
    ensures TxtFiles([f]) == if IsTxt(f) then [f] else []
  {
    assert [f][1..] == [];
  }

  /** A file whose name does not end in `.txt`, or that does not start with
      the delimiter, has no second delimiter, or whose header does not
      parse, does not change the index, whatever files come before or after
      it: loading goes on with the next file. */
  lemma PassedOverFileIsIgnored(index: PromptIndex, before: seq<DirEntry>, f: DirEntry, after: seq<DirEntry>, parse: HeaderParser)
    requires WellFormed(index)
    requires PassedOver(f, parse)
    ensures LoadAll(index, before + [f] + after, parse) == LoadAll(index, before + after, parse)
  {
    var a, b := TxtFiles(before), TxtFiles(after);
    TxtFilesConcat(before + [f], after);
    TxtFilesConcat(before, [f]);
    TxtFilesConcat(before, after);
    TxtFilesOne(f);
    if IsTxt(f) {
      assert TxtFiles(before + [f] + after) == a + [f] + b;
      LoadEntriesSkips(index, a, f, b, parse);
    } else {
      assert TxtFiles(before + [f] + after) == a + b;
    }
  }

  /** A `.txt` file that cannot be read ends the load: nothing after it is
      loaded, and what came before it stays loaded. */
  lemma UnreadableFileEndsLoad(index: PromptIndex, before: seq<DirEntry>, f: DirEntry, after: seq<DirEntry>, parse: HeaderParser)
    requires WellFormed(index)
    requires EndsWith(f.name, Extension) && f.content.None?
    ensures LoadAll(index, before + [f] + after, parse) == LoadAll(index, before, parse)
  {
    TxtFilesConcat(before + [f], after);
    TxtFilesConcat(before, [f]);
    TxtFilesOne(f);
    assert TxtFiles(before + [f] + after) == TxtFiles(before) + [f] + TxtFiles(after);
    LoadEntriesStops(index, TxtFiles(before), f, TxtFiles(after), parse);
  }

  /** One file changes the index only when its name ends in `.txt`, it can
      be read, it starts with the delimiter, the delimiter occurs a second
      time and the header parses; the prompt is then stored under its name,
      with the text after the second delimiter, trimmed, as its content, and
      every other name keeps what it had. */
  lemma LoadOneFile(index: PromptIndex, f: DirEntry, parse: HeaderParser)
    requires WellFormed(index)
    ensures !(IsTxt(f) && f.content.Some? && HasPrompt(f.content.value, parse)) ==>
      LoadAll(index, [f], parse) == index
    ensures IsTxt(f) && f.content.Some? && HasPrompt(f.content.value, parse) ==>
      var text := f.content.value;
      var metadata := parse(HeaderText(text)).value;
      var r := LoadAll(index, [f], parse);
      && r.Get(metadata.name) == Some(LoadedPrompt(metadata, Trim(BodyText(text))))
      && forall k :: k != metadata.name ==> r.Get(k) == index.Get(k)
  {
    TxtFilesOne(f);
    if IsTxt(f) && f.content.Some? {
      var text := f.content.value;
      var next := LoadFile(index, text, parse);
      assert [f][1..] == [];
      assert LoadEntries(index, [f], parse) == LoadEntries(next, [], parse) == next;
    }
  }

  /** The last readable file that yields a prompt of a given name decides
      what the index holds under that name: loading it sets that prompt,
      leaves every other name as the earlier files left it, and keeps the
      name in its old place in the order when it was already there. */
  lemma LastPromptOfANameWins(index: PromptIndex, files: seq<DirEntry>, f: DirEntry, parse: HeaderParser)
    requires WellFormed(index)
    requires forall i :: 0 <= i < |files| && EndsWith(files[i].name, Extension) ==> files[i].content.Some?
    requires EndsWith(f.name, Extension) && f.content.Some?
    requires ParseFile(f.content.value, parse).Parsed?
    ensures var p := ParseFile(f.content.value, parse).prompt;
      var earlier := LoadAll(index, files, parse);
      var later := LoadAll(index, files + [f], parse);
      && later.Get(p.metadata.name) == Some(p)
      && (forall k :: k != p.metadata.name ==> later.Get(k) == earlier.Get(k))
      && (p.metadata.name in earlier.store ==> later.order == earlier.order)
  {
    var txt := TxtFiles(files);
    TxtFilesConcat(files, [f]);
    TxtFilesOne(f);
    forall i | 0 <= i < |txt| ensures txt[i].content.Some? {
      assert txt[i] in files;
    }
    LoadEntriesAppend(index, txt, [f], parse);
    assert [f][1..] == [];
  }

  /** Loading never moves or removes a key: the keys the index had come
      first, in the same order, and new names follow them. */
  lemma {:induction false} LoadKeepsKeyOrder(index: PromptIndex, files: seq<DirEntry>, parse: HeaderParser)
    requires WellFormed(index)
    ensures var r := LoadEntries(index, files, parse);
      |index.order| <= |r.order| && r.order[..|index.order|] == index.order
    decreases |files|
  {
    if files != [] && files[0].content.Some? {
      var next := LoadFile(index, files[0].content.value, parse);
      LoadFileKeepsKeyOrder(index, files[0].content.value, parse);
      LoadKeepsKeyOrder(next, files[1..], parse);
      var r := LoadEntries(next, files[1..], parse);
      assert r.order[..|index.order|] == r.order[..|next.order|][..|index.order|];
    }
  }

  /** Loading one file keeps the keys the index had, in order. */
  lemma LoadFileKeepsKeyOrder(index: PromptIndex, text: string, parse: HeaderParser)
    requires WellFormed(index)
    ensures var r := LoadFile(index, text, parse);
      |index.order| <= |r.order| && r.order[..|index.order|] == index.order
  {
    match ParseFile(text, parse)
    case Parsed(p) =>
      assert (index.order + [p.metadata.name])[..|index.order|] == index.order;
    case _ =>
  }

  /** Every prompt in the index after a load was either there before or is
      the prompt of a readable `.txt` file of the listing. */
  lemma {:induction false} LoadedPromptsComeFromFiles(index: PromptIndex, files: seq<DirEntry>, parse: HeaderParser, k: string)
    requires WellFormed(index)
    requires k in LoadEntries(index, files, parse).store
    ensures var p := LoadEntries(index, files, parse).store[k];
      || (k in index.store && p == index.store[k])
      || exists f :: f in files && f.content.Some? && ParseFile(f.content.value, parse) == Parsed(p)
    decreases |files|
  {
    if files != [] && files[0].content.Some? {
      var next := LoadFile(index, files[0].content.value, parse);
      LoadedPromptsComeFromFiles(next, files[1..], parse, k);
      var p := LoadEntries(index, files, parse).store[k];
      if k in next.store && p == next.store[k] && !(k in index.store && p == index.store[k]) {
        assert ParseFile(files[0].content.value, parse) == Parsed(p);
      }
      if exists f :: f in files[1..] && f.content.Some? && ParseFile(f.content.value, parse) == Parsed(p) {
        var f :| f in files[1..] && f.content.Some? && ParseFile(f.content.value, parse) == Parsed(p);
        assert f in files;
      }
    }
  }

  /** The catalogue's languages merge and sort the prompts' lists: with one
      prompt for languages `c` and `b` and one for `b` and `a`, where `a`
      comes before `b` and `b` before `c` in code unit order (go, javascript
      and python, say), the only strictly ascending list of exactly their
      languages is `a`, `b`, `c`, with the shared `b` listed once. */
  lemma SupportedLanguagesMerge(first: LoadedPrompt, second: LoadedPrompt, a: string, b: string, c: string,
                                languages: seq<string>)
    requires CodeUnitLess(a, b) && CodeUnitLess(b, c)
    requires first.metadata.languages == [c, b]
    requires second.metadata.languages == [b, a]
    requires StrictlyAscending(languages)
    requires forall l :: l in languages <==> l in LanguagesOf([first, second])
    ensures languages == [a, b, c]
  {
    var expected := [a, b, c];
    CodeUnitLessTransitive(a, b, c);
    assert StrictlyAscending(expected);
    forall l ensures l in languages <==> l in expected {
      var both := [first, second];
      assert l in LanguagesOf(both) <==> l in both[0].metadata.languages || l in both[1].metadata.languages;
    }
    AscendingUnique(languages, expected);
  }
}
