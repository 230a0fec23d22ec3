/**
 * Reading the markdown tree into `wikiPages`: for each file, its front matter
 * (an object, with `path` set to the file's path) and its normalised blocks.
 * Reading a file, parsing YAML and converting markdown to blocks are foreign
 * code and come in as functions.
 */
module Loader {
  import opened Wrappers
  import opened Assoc
  import opened Js
  import opened FrontMatter
  import opened Normalize
  import Strings

  /** One entry of `wikiPages`. */
  datatype Doc = Doc(frontMatter: seq<Entry<Value>>, content: seq<Value>)

  /** The own enumerable keys of an array: its indices as decimal strings. */
  function IndexFields(xs: seq<Value>, from: nat): seq<Entry<Value>>
    decreases |xs|
  {
    if xs == [] then [] else [Entry(Strings.NatToString(from), xs[0])] + IndexFields(xs[1..], from + 1)
  }

  /**
   * `frontMatter.path = file` on what the YAML parser returned: objects and
   * arrays take the property; on null, undefined or any primitive the
   * assignment throws a TypeError in strict mode.
   */
  function WithPath(parsed: Value, file: string): (r: Result<seq<Entry<Value>>, Exception>)
    ensures r.Ok? <==> parsed.Obj? || parsed.Arr?
    ensures r.Ok? ==> Get(r.value, "path") == Str(file)
    ensures parsed.Obj? ==> forall k :: k != "path" ==> Get(r.value, k) == Get(parsed.fields, k)
    ensures r.Err? ==> r.error == TypeError
  {
    match parsed
    case Obj(fs) => Ok(Put(fs, "path", Str(file)))
    case Arr(xs) => Ok(Put(IndexFields(xs, 0), "path", Str(file)))
    case _ => Err(TypeError)
  }

  /** The parsed front matter: `{}` when there is none, `None` where the YAML parser throws. */
  function ParsedFront(h: Header, parse: string -> Option<Value>): Option<Value> {
    match h.front
    case None => Some(Obj([]))
    case Some(ft) => parse(ft)
  }

  /**
   * The loader's work for one file: split off the front matter, parse it
   * (`{}` when there is none), convert the body, set `path`, normalise the
   * blocks. `parse` returns `None` where the YAML parser throws.
   */
  function LoadDocument(file: string, text: string, parse: string -> Option<Value>, toBlocks: string -> seq<Value>): (r: Result<Doc, Exception>)
    ensures SplitFrontMatter(text).Err? ==> r == Err(FrontMatterEndNotFound)
    ensures SplitFrontMatter(text).Ok? && ParsedFront(SplitFrontMatter(text).value, parse).None? ==> r == Err(YamlError)
    ensures SplitFrontMatter(text).Ok? && ParsedFront(SplitFrontMatter(text).value, parse).Some? ==>
      WithPath(ParsedFront(SplitFrontMatter(text).value, parse).value, file).Err? ==> r == Err(TypeError)
    ensures r.Ok? <==>
      SplitFrontMatter(text).Ok? && ParsedFront(SplitFrontMatter(text).value, parse).Some? &&
      WithPath(ParsedFront(SplitFrontMatter(text).value, parse).value, file).Ok? &&
      NormalizeBlocks(toBlocks(SplitFrontMatter(text).value.body)).Ok?
    ensures r.Ok? ==> WithPath(ParsedFront(SplitFrontMatter(text).value, parse).value, file) == Ok(r.value.frontMatter)
    ensures r.Ok? ==> Get(r.value.frontMatter, "path") == Str(file)
    ensures r.Ok? && SplitFrontMatter(text).value.front.None? ==> r.value.frontMatter == [Entry("path", Str(file))]
    ensures r.Ok? ==> NormalizeBlocks(toBlocks(SplitFrontMatter(text).value.body)) == Ok(r.value.content)
    ensures r.Ok? ==> forall i :: 0 <= i < |r.value.content| ==> NoLinks(r.value.content[i])
  {
    match SplitFrontMatter(text)
    case Err(e) => Err(e)
    case Ok(h) =>
      match ParsedFront(h, parse)
      case None => Err(YamlError)
      case Some(v) =>
        var blocks := toBlocks(h.body);
        match WithPath(v, file)
        case Err(e) => Err(e)
        case Ok(front) =>
          match NormalizeBlocks(blocks)
          case Err(e) => Err(e)
          case Ok(content) =>
            assert forall i :: 0 <= i < |content| ==> NormalizeBlock(blocks[i]) == Ok(content[i]);
            Ok(Doc(front, content))
  }

  /** The whole per-file step, with the file read through `read`. */
  function Loading(read: string -> string, parse: string -> Option<Value>, toBlocks: string -> seq<Value>): string -> Result<Doc, Exception> {
    file => LoadDocument(file, read(file), parse, toBlocks)
  }

  /** `wikiPages` after the `forEach` over `files` (or the first exception it throws). */
  function LoadPages(files: seq<string>, load: string -> Result<Doc, Exception>): Result<seq<Entry<Doc>>, Exception>
  {
    if files == [] then Ok([])
    else
      var file := files[|files| - 1];
      match LoadPages(files[..|files| - 1], load)
      case Err(e) => Err(e)
      case Ok(pages) =>
        match load(file)
        case Err(e) => Err(e)
        case Ok(doc) => Ok(Put(pages, file, doc))
  }

  /** The loader's `forEach` over the markdown files. */
  method LoadAll(files: seq<string>, read: string -> string, parse: string -> Option<Value>, toBlocks: string -> seq<Value>)
    returns (r: Result<seq<Entry<Doc>>, Exception>)
    ensures r == LoadPages(files, Loading(read, parse, toBlocks))
  {
    var load := Loading(read, parse, toBlocks);
    var wikiPages: seq<Entry<Doc>> := [];
    for i := 0 to |files|
      invariant LoadPages(files[..i], load) == Ok(wikiPages)
    {
      var file := files[i];
      assert files[..i + 1][..i] == files[..i];
      var doc := load(file);
      if doc.Err? {
        LoadPagesStops(files, i + 1, load);
        return Err(doc.error);
      }
      wikiPages := Put(wikiPages, file, doc.value);
    }
    assert files[..|files|] == files;
    r := Ok(wikiPages);
  }

  /** The first exception ends the loading: later files change nothing. */
  lemma {:induction false} LoadPagesStops(files: seq<string>, n: nat, load: string -> Result<Doc, Exception>)
    requires n <= |files| && LoadPages(files[..n], load).Err?
    ensures LoadPages(files, load) == LoadPages(files[..n], load)
    decreases |files|
  {
    if n < |files| {
      var init := files[..|files| - 1];
      assert init[..n] == files[..n];
      LoadPagesStops(init, n, load);
    } else {
      assert files[..n] == files;
    }
  }

  /** Every file loads without an exception. */
  ghost predicate AllLoad(files: seq<string>, load: string -> Result<Doc, Exception>) {
    forall i :: 0 <= i < |files| ==> load(files[i]).Ok?
  }

  lemma AllLoadSnoc(files: seq<string>, load: string -> Result<Doc, Exception>)
    requires files != []
    ensures AllLoad(files, load) <==> AllLoad(files[..|files| - 1], load) && load(files[|files| - 1]).Ok?
  {
    var init := files[..|files| - 1];
    assert forall i :: 0 <= i < |init| ==> files[i] == init[i];
    if AllLoad(init, load) && load(files[|files| - 1]).Ok? {
      forall i | 0 <= i < |files| ensures load(files[i]).Ok? {
        if i < |init| { assert files[i] == init[i]; }
      }
    }
  }

  /** Loading succeeds exactly when every file loads. */
  lemma {:induction false} LoadPagesOk(files: seq<string>, load: string -> Result<Doc, Exception>)
    ensures LoadPages(files, load).Ok? <==> AllLoad(files, load)
  {
    if files != [] {
      var n := |files| - 1;
      LoadPagesOk(files[..n], load);
      AllLoadSnoc(files, load);
    }
  }

  /**
   * A loaded page map has distinct keys, one per file, each holding that
   * file's document; nothing else is in it.
   */
  lemma {:induction false} LoadPagesContents(files: seq<string>, load: string -> Result<Doc, Exception>)
    requires LoadPages(files, load).Ok?
    ensures UniqueKeys(LoadPages(files, load).value)
    ensures forall k :: k in files ==> load(k).Ok? && Find(LoadPages(files, load).value, k) == Some(load(k).value)
    ensures forall k :: k !in files ==> Find(LoadPages(files, load).value, k) == None
  {
    if files != [] {
      var init := files[..|files| - 1];
      var file := files[|files| - 1];
      LoadPagesContents(init, load);
      var pages := LoadPages(init, load).value;
      var ps := Put(pages, file, load(file).value);
      assert LoadPages(files, load).value == ps;
      PutUnique(pages, file, load(file).value);
      forall k | k in files ensures load(k).Ok? && Find(ps, k) == Some(load(k).value) {
        if k != file {
          assert k in init;
        }
      }
      forall k | k !in files ensures Find(ps, k) == None {
        assert k != file && k !in init;
      }
    }
  }
}
