/**
 * The two rewrites the tool applies to every block the markdown converter
 * produces: newline folding in paragraph text runs, and turning every linked
 * text run into a literal `[text](url)` in code style (the store's own link
 * objects are not used).
 */
module Normalize {
  import opened Wrappers
  import opened Assoc
  import opened Js
  import opened TreeWalk
  import Strings

  predicate IsTextRun(v: Value) {
    v.Obj? && Get(v.fields, "type") == Str("text")
  }

  predicate IsParagraph(v: Value) {
    v.Obj? && Get(v.fields, "type") == Str("paragraph")
  }

  /** `run.text.content`, when `text` is an object and `content` a string. */
  function Content(run: Value): Option<string> {
    if !run.Obj? then None
    else
      match Get(run.fields, "text")
      case Obj(tf) => (match Get(tf, "content") case Str(c) => Some(c) case _ => None)
      case _ => None
  }

  /** The run with `text.content` set to `c` and nothing else changed. */
  function WithContent(run: Value, c: string): Value
    requires Content(run).Some?
  {
    var tf := Get(run.fields, "text").fields;
    Obj(Put(run.fields, "text", Obj(Put(tf, "content", Str(c)))))
  }

  /** Setting the content keeps the run's type and reads back as set. */
  lemma WithContentReads(run: Value, c: string)
    requires Content(run).Some?
    ensures var r := WithContent(run, c);
      r.Obj? && Get(r.fields, "type") == Get(run.fields, "type") && Content(r) == Some(c)
  {
    var tf := Get(run.fields, "text").fields;
    TextKeepsType(run.fields, Obj(Put(tf, "content", Str(c))));
  }

  /** Writing `text` leaves `type` as it was. */
  lemma TextKeepsType(fs: seq<Entry<Value>>, x: Value)
    ensures Get(Put(fs, "text", x), "type") == Get(fs, "type")
  {
    assert "type"[1] != "text"[1];
  }

  /** `c'` is `c` with every newline replaced by a space. */
  predicate Folded(c: string, c': string) {
    |c'| == |c| && '\n' !in c' &&
    forall i :: 0 <= i < |c| ==> c'[i] == (if c[i] == '\n' then ' ' else c[i])
  }

  /**
   * The callback of `rich_text.map` for paragraphs: a run of type "text" has
   * the newlines of its content replaced by spaces; every other run is
   * returned as it is. It throws on a null run and on a text run whose
   * `text.content` is not a string.
   */
  function FoldRun(run: Value): (r: Result<Value, Exception>)
    ensures r.Err? <==> run.Undefined? || run.Null? || (IsTextRun(run) && Content(run).None?)
    ensures r.Ok? && !IsTextRun(run) ==> r.value == run
    ensures r.Ok? && IsTextRun(run) ==>
      && Content(run).Some? && IsTextRun(r.value) && Content(r.value).Some?
      && Folded(Content(run).value, Content(r.value).value)
      && r.value == WithContent(run, Content(r.value).value)
  {
    match run
    case Undefined => Err(TypeError)
    case Null => Err(TypeError)
    case Obj(fs) =>
      if Get(fs, "type") != Str("text") then Ok(run)
      else
        (match Content(run)
         case None => Err(TypeError)
         case Some(c) =>
           var c' := Strings.ReplaceChar(c, '\n', ' ');
           assert '\n' !in c' by {
             forall i | 0 <= i < |c'| ensures c'[i] != '\n' { }
           }
           WithContentReads(run, c');
           Ok(WithContent(run, c')))
    case _ => Ok(run)
  }

  /** `runs.map(FoldRun)`: the first run that throws ends the map. */
  function FoldRuns(runs: seq<Value>): (r: Result<seq<Value>, Exception>)
    ensures r.Ok? <==> forall i :: 0 <= i < |runs| ==> FoldRun(runs[i]).Ok?
    ensures r.Ok? ==> |r.value| == |runs| && forall i :: 0 <= i < |runs| ==> FoldRun(runs[i]) == Ok(r.value[i])
  {
    if runs == [] then Ok([])
    else
      match FoldRun(runs[0])
      case Err(e) => Err(e)
      case Ok(x) =>
        match FoldRuns(runs[1..])
        case Err(e) =>
          assert exists i :: 0 <= i < |runs[1..]| && FoldRun(runs[1..][i]).Err?;
          Err(e)
        case Ok(xs) =>
          assert forall i :: 1 <= i < |runs| ==> runs[i] == runs[1..][i - 1];
          Ok([x] + xs)
  }

  /** `block.paragraph.rich_text` when `paragraph` is an object and `rich_text` an array. */
  function Runs(block: Value): Option<seq<Value>> {
    if !block.Obj? then None
    else
      match Get(block.fields, "paragraph")
      case Obj(pf) => (match Get(pf, "rich_text") case Arr(xs) => Some(xs) case _ => None)
      case _ => None
  }

  /** The block with `paragraph.rich_text` set to `runs` and nothing else changed. */
  function WithRuns(block: Value, runs: seq<Value>): Value
    requires Runs(block).Some?
  {
    var pf := Get(block.fields, "paragraph").fields;
    Obj(Put(block.fields, "paragraph", Obj(Put(pf, "rich_text", Arr(runs)))))
  }

  /**
   * Newline folding for one block (the "gobble newlines" step): a paragraph has
   * every run of its `rich_text` folded; any other block is returned as it is.
   * It throws on a null block, on a paragraph without an object `paragraph` or
   * an array `rich_text`, and wherever a run throws.
   */
  function FoldParagraph(block: Value): (r: Result<Value, Exception>)
    ensures !IsParagraph(block) ==> r == (if block.Undefined? || block.Null? then Err(TypeError) else Ok(block))
    ensures IsParagraph(block) ==>
      (r.Ok? <==> Runs(block).Some? && forall i :: 0 <= i < |Runs(block).value| ==> FoldRun(Runs(block).value[i]).Ok?)
    ensures IsParagraph(block) && r.Ok? ==>
      && Runs(block).Some? && IsParagraph(r.value) && Runs(r.value).Some?
      && |Runs(r.value).value| == |Runs(block).value|
      && (forall i :: 0 <= i < |Runs(block).value| ==> FoldRun(Runs(block).value[i]) == Ok(Runs(r.value).value[i]))
      && r.value == WithRuns(block, Runs(r.value).value)
  {
    match block
    case Undefined => Err(TypeError)
    case Null => Err(TypeError)
    case Obj(fs) =>
      if Get(fs, "type") != Str("paragraph") then Ok(block)
      else
        (match Runs(block)
         case None => Err(TypeError)
         case Some(runs) =>
           match FoldRuns(runs)
           case Err(e) => Err(e)
           case Ok(runs') => Ok(WithRuns(block, runs')))
    case _ => Ok(block)
  }

  /** Folding a paragraph twice gives what folding it once gives. */
  lemma FoldParagraphIdempotent(block: Value)
    requires FoldParagraph(block).Ok?
    ensures FoldParagraph(FoldParagraph(block).value) == FoldParagraph(block)
  {
    var b := FoldParagraph(block).value;
    if IsParagraph(block) {
      var runs := Runs(block).value;
      var runs' := Runs(b).value;
      forall i | 0 <= i < |runs'| ensures FoldRun(runs'[i]) == Ok(runs'[i]) {
        FoldRunIdempotent(runs[i]);
      }
      var again := FoldRuns(runs');
      assert again.Ok?;
      assert again.value == runs' by {
        assert forall i :: 0 <= i < |runs'| ==> again.value[i] == runs'[i];
      }
      var pf := Get(b.fields, "paragraph").fields;
      PutSame(pf, "rich_text", Arr(runs'));
      PutSame(b.fields, "paragraph", Obj(pf));
    }
  }

  /** A folded run folds to itself. */
  lemma FoldRunIdempotent(run: Value)
    requires FoldRun(run).Ok?
    ensures FoldRun(FoldRun(run).value) == FoldRun(run)
  {
    var r := FoldRun(run).value;
    if IsTextRun(run) {
      var c' := Content(r).value;
      assert Strings.ReplaceChar(c', '\n', ' ') == c';
      var tf := Get(r.fields, "text").fields;
      PutSame(tf, "content", Str(c'));
      PutSame(r.fields, "text", Obj(tf));
    }
  }

  /**
   * Whether `replaceLink` would rewrite a run: its `text` is an object with a
   * truthy `link`, or a string (whose `link` is String.prototype.link).
   */
  predicate HasLink(run: seq<Entry<Value>>) {
    match Get(run, "text")
    case Obj(tf) => Truthy(Get(tf, "link"))
    case Str(_) => true
    case _ => false
  }

  /** `annotations.code = true`, or `annotations = {code: true}` when there were none. */
  function CodeStyled(ann: Value): (r: Result<Value, Exception>)
    ensures !Truthy(ann) ==> r == Ok(Obj([Entry("code", Bool(true))]))
    ensures ann.Obj? ==> r.Ok? && r.value.Obj? && Get(r.value.fields, "code") == Bool(true)
    ensures ann.Obj? ==> forall k :: k != "code" ==> Get(r.value.fields, k) == Get(ann.fields, k)
    ensures r.Err? <==> Truthy(ann) && Primitive(ann)
    ensures r.Err? ==> r.error == TypeError
  {
    if !Truthy(ann) then Ok(Obj([Entry("code", Bool(true))]))
    else
      match ann
      case Obj(af) => Ok(Obj(Put(af, "code", Bool(true))))
      case Arr(_) => Ok(ann)  // the flag lands on the array object, which the store's JSON does not carry
      case _ => Err(TypeError)  // strict mode: no property can be created on a primitive
  }

  /** The literal markdown link `replaceLink` writes for a run's text object. */
  function LinkText(tf: seq<Entry<Value>>): string {
    var link := Get(tf, "link");
    var url := if link.Obj? then Get(link.fields, "url") else Undefined;
    "[" + Show(Get(tf, "content")) + "](" + Show(url) + ")"
  }

  /**
   * `replaceLink` on a text run: when `text.link` is truthy the content becomes
   * `[content](url)`, the run is styled as code and the link is cleared;
   * otherwise the run is left alone. Reading `text.link` throws when `text` is
   * undefined or null; writing `text.content` throws when `text` is a string;
   * writing `annotations.code` throws when the annotations are a truthy primitive.
   */
  function ReplaceLink(run: seq<Entry<Value>>): (r: Result<seq<Entry<Value>>, Exception>)
    ensures r.Err? <==> Get(run, "text").Undefined? || Get(run, "text").Null? || Get(run, "text").Str?
                        || (HasLink(run) && Truthy(Get(run, "annotations")) && Primitive(Get(run, "annotations")))
    ensures r.Ok? && !HasLink(run) ==> r.value == run
    ensures r.Ok? && HasLink(run) ==>
      var tf := Get(run, "text").fields;
      && Get(r.value, "text") == Obj(Put(Put(tf, "content", Str(LinkText(tf))), "link", Undefined))
      && CodeStyled(Get(run, "annotations")) == Ok(Get(r.value, "annotations"))
    ensures r.Ok? ==> forall k :: k != "text" && k != "annotations" ==> Get(r.value, k) == Get(run, k)
    ensures r.Err? ==> r.error == TypeError
  {
    match Get(run, "text")
    case Undefined => Err(TypeError)
    case Null => Err(TypeError)
    case Str(_) => Err(TypeError)
    case Obj(tf) =>
      if !Truthy(Get(tf, "link")) then Ok(run)
      else
        var text := Put(Put(tf, "content", Str(LinkText(tf))), "link", Undefined);
        (match CodeStyled(Get(run, "annotations"))
         case Err(e) => Err(e)
         case Ok(ann) =>
           RewriteReads(run, Obj(text), ann);
           Ok(Put(Put(run, "text", Obj(text)), "annotations", ann)))
    case _ => Ok(run)
  }

  /** Writing `text`, then `annotations`: both read as written, every other key as before. */
  lemma RewriteReads(run: seq<Entry<Value>>, text: Value, ann: Value)
    ensures var r := Put(Put(run, "text", text), "annotations", ann);
      && Get(r, "text") == text && Get(r, "annotations") == ann
      && forall k :: k != "text" && k != "annotations" ==> Get(r, k) == Get(run, k)
  {
    assert |"text"| != |"annotations"|;
  }

  /**
   * On a run with a link: the content becomes `[old content](url)`, the link
   * reads as undefined, `annotations.code` is true and every other annotation
   * flag is kept.
   */
  lemma ReplaceLinkRewrites(run: seq<Entry<Value>>)
    requires HasLink(run) && ReplaceLink(run).Ok?
    requires Get(run, "annotations").Obj? || !Truthy(Get(run, "annotations"))
    ensures var tf := Get(run, "text").fields;
            var text := Get(ReplaceLink(run).value, "text");
            var ann := Get(ReplaceLink(run).value, "annotations");
      && text.Obj?
      && Get(text.fields, "content") == Str("[" + Show(Get(tf, "content")) + "](" + Show(if Get(tf, "link").Obj? then Get(Get(tf, "link").fields, "url") else Undefined) + ")")
      && !Truthy(Get(text.fields, "link"))
      && ann.Obj? && Get(ann.fields, "code") == Bool(true)
      && (Get(run, "annotations").Obj? ==> forall k :: k != "code" ==> Get(ann.fields, k) == Get(Get(run, "annotations").fields, k))
  {
  }

  /** Applying `replaceLink` twice gives what applying it once gives. */
  lemma ReplaceLinkIdempotent(run: seq<Entry<Value>>)
    requires ReplaceLink(run).Ok?
    ensures ReplaceLink(ReplaceLink(run).value) == ReplaceLink(run)
  {
  }

  /** The `walkWith` callback: every object of type "text" goes through `replaceLink`; the walk always goes on. */
  function LinkCallback(v: Value): Walked<Value> {
    if IsTextRun(v) then
      match ReplaceLink(v.fields)
      case Ok(fs) => Returned(true, Obj(fs))
      case Err(_) => Threw
    else Returned(true, v)
  }

  lemma CodeStyledHeight(ann: Value)
    requires CodeStyled(ann).Ok?
    ensures Height(CodeStyled(ann).value) <= if Height(ann) < 1 then 1 else Height(ann)
  {
    if !Truthy(ann) {
      assert FieldsHeight([Entry("code", Bool(true))]) == 0;
    } else if ann.Obj? {
      PutHeight(ann.fields, "code", Bool(true));
    }
  }

  lemma ReplaceLinkHeight(run: seq<Entry<Value>>)
    requires ReplaceLink(run).Ok?
    ensures FieldsHeight(ReplaceLink(run).value) <= FieldsHeight(run)
  {
    if HasLink(run) {
      var tf := Get(run, "text").fields;
      GetHeight(run, "text");
      GetHeight(run, "annotations");
      var t1 := Put(tf, "content", Str(LinkText(tf)));
      var t2 := Put(t1, "link", Undefined);
      PutHeight(tf, "content", Str(LinkText(tf)));
      PutHeight(t1, "link", Undefined);
      var ann := Get(run, "annotations");
      CodeStyledHeight(ann);
      var ann' := CodeStyled(ann).value;
      var r1 := Put(run, "text", Obj(t2));
      PutHeight(run, "text", Obj(t2));
      PutHeight(r1, "annotations", ann');
      assert ReplaceLink(run).value == Put(r1, "annotations", ann');
    }
  }

  /** The link callback never deepens a node, so the walk over it terminates. */
  lemma LinkCallbackShrinks()
    ensures Shrinking(LinkCallback)
  {
    forall v | LinkCallback(v).Returned? ensures Height(LinkCallback(v).node) <= Height(v) {
      if IsTextRun(v) {
        ReplaceLinkHeight(v.fields);
      }
    }
  }

  /** The callback would leave this node exactly as it is. */
  predicate TopSettled(v: Value) {
    LinkCallback(v) == Returned(true, v)
  }

  /** Every node of the tree is one the link callback leaves alone. */
  predicate Settled(v: Value) {
    TopSettled(v) &&
    match v
    case Obj(fs) => forall i :: 0 <= i < |fs| ==> Settled(fs[i].val)
    case Arr(xs) => forall i :: 0 <= i < |xs| ==> Settled(xs[i])
    case _ => true
  }

  /** No text run anywhere in the tree still carries a link. */
  predicate NoLinks(v: Value) {
    match v
    case Obj(fs) => (IsTextRun(v) ==> !HasLink(fs)) && forall i :: 0 <= i < |fs| ==> NoLinks(fs[i].val)
    case Arr(xs) => forall i :: 0 <= i < |xs| ==> NoLinks(xs[i])
    case _ => true
  }

  /** `replaceLink` always changes a run that has a link, so a run it leaves alone has none. */
  lemma LinkedRunChanges(run: seq<Entry<Value>>)
    ensures ReplaceLink(run).Ok? && HasLink(run) ==> ReplaceLink(run).value != run
  {
    if ReplaceLink(run).Ok? && HasLink(run) {
      var tf := Get(run, "text").fields;
      var text := Put(Put(tf, "content", Str(LinkText(tf))), "link", Undefined);
      assert Get(ReplaceLink(run).value, "text") == Obj(text);
      assert Get(text, "link") == Undefined;
      assert Truthy(Get(tf, "link"));
    }
  }

  lemma {:induction false} SettledNoLinks(v: Value)
    requires Settled(v)
    ensures NoLinks(v)
  {
    match v
    case Obj(fs) =>
      if IsTextRun(v) {
        LinkedRunChanges(fs);
      }
      forall i | 0 <= i < |fs| ensures NoLinks(fs[i].val) {
        SettledNoLinks(fs[i].val);
      }
    case Arr(xs) =>
      forall i | 0 <= i < |xs| ensures NoLinks(xs[i]) {
        SettledNoLinks(xs[i]);
      }
    case _ =>
  }

  /** What the callback leaves behind is a node it would leave alone. */
  lemma CallbackSettles(v: Value)
    requires LinkCallback(v).Returned?
    ensures LinkCallback(v).cont && TopSettled(LinkCallback(v).node)
  {
    if IsTextRun(v) {
      ReplaceLinkIdempotent(v.fields);
    }
  }

  /** Walking an object's fields to completion reads each key as the walk of what it held. */
  lemma {:induction false} WalkFieldsGet(fs: seq<Entry<Value>>, f: Value -> Walked<Value>, k: string)
    requires Shrinking(f) && Continues(WalkFields(fs, f))
    ensures var fs' := WalkFields(fs, f).node;
      if HasKey(fs, k) then Walk(Get(fs, k), f) == Returned(true, Get(fs', k)) else Get(fs', k) == Undefined
    decreases |fs|
  {
    if fs == [] {
    } else {
      HasKeyTail(fs, k);
      var fs' := WalkFields(fs, f).node;
      var x := Walk(fs[0].val, f).node;
      var rest := WalkFields(fs[1..], f);
      assert fs' == [Entry(fs[0].key, x)] + rest.node;
      if fs[0].key != k {
        WalkFieldsGet(fs[1..], f, k);
        HasKeyTail(fs', k);
        assert fs'[1..] == rest.node;
      }
    }
  }

  /** The link walk keeps primitives as they are and objects and arrays of their kind. */
  lemma LinkWalkKind(v: Value)
    requires Shrinking(LinkCallback) && Walk(v, LinkCallback).Returned?
    ensures var y := Walk(v, LinkCallback).node;
      (Primitive(v) ==> y == v) && (v.Obj? <==> y.Obj?) && (v.Arr? <==> y.Arr?)
  {
  }

  /** Walking an object whose `link` is falsy leaves its `link` falsy. */
  lemma FalsyLinkStays(x: Value)
    requires Shrinking(LinkCallback) && x.Obj? && !Truthy(Get(x.fields, "link"))
    requires Continues(Walk(x, LinkCallback))
    ensures var y := Walk(x, LinkCallback).node; y.Obj? && !Truthy(Get(y.fields, "link"))
  {
    var fs1 := LinkCallback(x).node.fields;
    assert Get(fs1, "link") == Get(x.fields, "link");
    WalkFieldsGet(fs1, LinkCallback, "link");
    if HasKey(fs1, "link") {
      LinkWalkKind(Get(fs1, "link"));
    }
  }

  /** Walking the fields of a node the callback leaves alone gives a node it leaves alone. */
  lemma FieldsWalkKeepsSettled(fs: seq<Entry<Value>>)
    requires Shrinking(LinkCallback) && TopSettled(Obj(fs)) && Continues(WalkFields(fs, LinkCallback))
    ensures TopSettled(Obj(WalkFields(fs, LinkCallback).node))
  {
    var fs' := WalkFields(fs, LinkCallback).node;
    WalkFieldsGet(fs, LinkCallback, "type");
    if HasKey(fs, "type") {
      LinkWalkKind(Get(fs, "type"));
    }
    if IsTextRun(Obj(fs)) {
      assert IsTextRun(Obj(fs'));
      LinkedRunChanges(fs);
      var t := Get(fs, "text");
      WalkFieldsGet(fs, LinkCallback, "text");
      assert HasKey(fs, "text");
      LinkWalkKind(t);
      var t' := Get(fs', "text");
      if t.Obj? {
        FalsyLinkStays(t);
      }
      assert !HasLink(fs');
    }
  }

  /**
   * Whatever the link walk returns has gone on to the end and is settled: the
   * callback would leave every node of it alone.
   */
  lemma {:induction false} WalkSettles(v: Value)
    requires Shrinking(LinkCallback)
    ensures Walk(v, LinkCallback).Returned? ==> Walk(v, LinkCallback).cont && Settled(Walk(v, LinkCallback).node)
    decreases Height(v), 1
  {
    if LinkCallback(v).Returned? {
      CallbackSettles(v);
      var n := LinkCallback(v).node;
      assert Height(n) <= Height(v);
      match n
      case Obj(fs) =>
        WalkFieldsSettles(fs);
        if WalkFields(fs, LinkCallback).Returned? {
          FieldsWalkKeepsSettled(fs);
        }
      case Arr(xs) =>
        WalkItemsSettles(xs);
      case _ =>
    }
  }

  lemma {:induction false} WalkFieldsSettles(fs: seq<Entry<Value>>)
    requires Shrinking(LinkCallback)
    ensures var w := WalkFields(fs, LinkCallback);
      w.Returned? ==> w.cont && forall i :: 0 <= i < |w.node| ==> Settled(w.node[i].val)
    decreases FieldsHeight(fs), 2, |fs|
  {
    if fs != [] {
      FieldHeight(fs, 0);
      WalkSettles(fs[0].val);
      WalkFieldsSettles(fs[1..]);
    }
  }

  lemma {:induction false} WalkItemsSettles(xs: seq<Value>)
    requires Shrinking(LinkCallback)
    ensures var w := WalkItems(xs, LinkCallback);
      w.Returned? ==> w.cont && forall i :: 0 <= i < |w.node| ==> Settled(w.node[i])
    decreases ItemsHeight(xs), 2, |xs|
  {
    if xs != [] {
      ItemHeight(xs, 0);
      WalkSettles(xs[0]);
      WalkItemsSettles(xs[1..]);
    }
  }

  /** On a settled tree the link walk returns true and changes nothing. */
  lemma {:induction false} SettledWalkIdentity(v: Value)
    requires Shrinking(LinkCallback) && Settled(v)
    ensures Walk(v, LinkCallback) == Returned(true, v)
    decreases Height(v), 1
  {
    match v
    case Obj(fs) => SettledFieldsIdentity(fs);
    case Arr(xs) => SettledItemsIdentity(xs);
    case _ =>
  }

  lemma {:induction false} SettledFieldsIdentity(fs: seq<Entry<Value>>)
    requires Shrinking(LinkCallback) && forall i :: 0 <= i < |fs| ==> Settled(fs[i].val)
    ensures WalkFields(fs, LinkCallback) == Returned(true, fs)
    decreases FieldsHeight(fs), 2, |fs|
  {
    if fs != [] {
      FieldHeight(fs, 0);
      SettledWalkIdentity(fs[0].val);
      assert forall i :: 0 <= i < |fs[1..]| ==> fs[1..][i] == fs[i + 1];
      SettledFieldsIdentity(fs[1..]);
      assert [Entry(fs[0].key, fs[0].val)] + fs[1..] == fs;
    }
  }

  lemma {:induction false} SettledItemsIdentity(xs: seq<Value>)
    requires Shrinking(LinkCallback) && forall i :: 0 <= i < |xs| ==> Settled(xs[i])
    ensures WalkItems(xs, LinkCallback) == Returned(true, xs)
    decreases ItemsHeight(xs), 2, |xs|
  {
    if xs != [] {
      ItemHeight(xs, 0);
      SettledWalkIdentity(xs[0]);
      assert forall i :: 0 <= i < |xs[1..]| ==> xs[1..][i] == xs[i + 1];
      SettledItemsIdentity(xs[1..]);
      assert [xs[0]] + xs[1..] == xs;
    }
  }

  /** Running the link walk a second time over its own result changes nothing. */
  lemma LinkWalkIdempotent(v: Value)
    requires Shrinking(LinkCallback) && Walk(v, LinkCallback).Returned?
    ensures Walk(Walk(v, LinkCallback).node, LinkCallback) == Walk(v, LinkCallback)
  {
    WalkSettles(v);
    SettledWalkIdentity(Walk(v, LinkCallback).node);
  }

  /**
   * The link rewrite stated without the walk: every text run goes through
   * `replaceLink`, and then every field and element of every object and
   * array, at every depth, is rewritten the same way. The first run that
   * throws makes the whole rewrite throw.
   */
  function Literal(v: Value): (r: Result<Value, Exception>)
    ensures r.Ok? ==> (Primitive(v) ==> r.value == v) && (v.Obj? <==> r.value.Obj?) && (v.Arr? <==> r.value.Arr?)
    ensures r.Err? ==> r.error == TypeError
    decreases Height(v), 1
  {
    match v
    case Obj(fs) =>
      if !IsTextRun(v) then LiteralObj(LiteralFields(fs))
      else
        (match ReplaceLink(fs)
         case Err(e) => Err(e)
         case Ok(fs1) =>
           ReplaceLinkHeight(fs);
           LiteralObj(LiteralFields(fs1)))
    case Arr(xs) =>
      (match LiteralItems(xs)
       case Err(e) => Err(e)
       case Ok(xs2) => Ok(Arr(xs2)))
    case _ => Ok(v)
  }

  /** An object built from rewritten fields. */
  function LiteralObj(fs: Result<seq<Entry<Value>>, Exception>): (r: Result<Value, Exception>)
    ensures r.Ok? <==> fs.Ok?
  {
    match fs
    case Err(e) => Err(e)
    case Ok(fs2) => Ok(Obj(fs2))
  }

  /** `Literal` on each field value, keys and order kept. */
  function LiteralFields(fs: seq<Entry<Value>>): (r: Result<seq<Entry<Value>>, Exception>)
    ensures r.Ok? ==> |r.value| == |fs|
    ensures r.Err? ==> r.error == TypeError
    decreases FieldsHeight(fs), 2, |fs|
  {
    if fs == [] then Ok([])
    else
      match Literal(fs[0].val)
      case Err(e) => Err(e)
      case Ok(x) =>
        match LiteralFields(fs[1..])
        case Err(e) => Err(e)
        case Ok(rest) =>
          Ok([Entry(fs[0].key, x)] + rest)
  }

  /** `Literal` on each element, order kept. */
  function LiteralItems(xs: seq<Value>): (r: Result<seq<Value>, Exception>)
    ensures r.Ok? ==> |r.value| == |xs|
    ensures r.Err? ==> r.error == TypeError
    decreases ItemsHeight(xs), 2, |xs|
  {
    if xs == [] then Ok([])
    else
      match Literal(xs[0])
      case Err(e) => Err(e)
      case Ok(x) =>
        match LiteralItems(xs[1..])
        case Err(e) => Err(e)
        case Ok(rest) =>
          Ok([x] + rest)
  }

  /** A successful rewrite of an object's fields keeps every key in place and rewrites each value on its own. */
  lemma {:induction false} LiteralFieldsEach(fs: seq<Entry<Value>>)
    requires LiteralFields(fs).Ok?
    ensures var fs' := LiteralFields(fs).value;
      forall i :: 0 <= i < |fs| ==> fs'[i].key == fs[i].key && Literal(fs[i].val) == Ok(fs'[i].val)
  {
    if fs != [] {
      LiteralFieldsEach(fs[1..]);
      assert forall i :: 1 <= i < |fs| ==> fs[i] == fs[1..][i - 1];
    }
  }

  /** A successful rewrite of an array rewrites each element on its own, in place. */
  lemma {:induction false} LiteralItemsEach(xs: seq<Value>)
    requires LiteralItems(xs).Ok?
    ensures forall i :: 0 <= i < |xs| ==> Literal(xs[i]) == Ok(LiteralItems(xs).value[i])
  {
    if xs != [] {
      LiteralItemsEach(xs[1..]);
      assert forall i :: 1 <= i < |xs| ==> xs[i] == xs[1..][i - 1];
    }
  }

  /** A rewrite's outcome as a walk reports it: true with the new tree, or thrown. */
  function AsWalked<T>(r: Result<T, Exception>): Walked<T> {
    match r
    case Ok(x) => Returned(true, x)
    case Err(_) => Threw
  }

  /** The link walk is the structural rewrite: it returns true with `Literal`'s tree, or throws where `Literal` does. */
  lemma {:induction false} WalkIsLiteral(v: Value)
    requires Shrinking(LinkCallback)
    ensures Walk(v, LinkCallback) == AsWalked(Literal(v))
    decreases Height(v), 1
  {
    match v
    case Obj(fs) =>
      if IsTextRun(v) {
        if ReplaceLink(fs).Ok? {
          ReplaceLinkHeight(fs);
          WalkIsLiteralFields(ReplaceLink(fs).value);
        }
      } else {
        WalkIsLiteralFields(fs);
      }
    case Arr(xs) =>
      WalkIsLiteralItems(xs);
    case _ =>
  }

  lemma {:induction false} WalkIsLiteralFields(fs: seq<Entry<Value>>)
    requires Shrinking(LinkCallback)
    ensures WalkFields(fs, LinkCallback) == AsWalked(LiteralFields(fs))
    decreases FieldsHeight(fs), 2, |fs|
  {
    if fs != [] {
      WalkIsLiteral(fs[0].val);
      WalkIsLiteralFields(fs[1..]);
    }
  }

  lemma {:induction false} WalkIsLiteralItems(xs: seq<Value>)
    requires Shrinking(LinkCallback)
    ensures WalkItems(xs, LinkCallback) == AsWalked(LiteralItems(xs))
    decreases ItemsHeight(xs), 2, |xs|
  {
    if xs != [] {
      WalkIsLiteral(xs[0]);
      WalkIsLiteralItems(xs[1..]);
    }
  }

  /**
   * One element of `blocks.map(...)`: newline folding, then the link walk over
   * the whole block. What comes out has no link left in any text run.
   */
  function NormalizeBlock(block: Value): (r: Result<Value, Exception>)
    ensures r.Ok? ==> Settled(r.value) && NoLinks(r.value)
    ensures r.Ok? ==> FoldParagraph(block).Ok?
    ensures FoldParagraph(block).Err? ==> r == FoldParagraph(block)
    ensures FoldParagraph(block).Ok? ==> r == Literal(FoldParagraph(block).value)
  {
    match FoldParagraph(block)
    case Err(e) => Err(e)
    case Ok(b) =>
      LinkCallbackShrinks();
      WalkIsLiteral(b);
      match Walk(b, LinkCallback)
      case Threw => Err(TypeError)
      case Returned(_, b') =>
        WalkSettles(b);
        SettledNoLinks(b');
        Ok(b')
  }

  /** `blocks.map(...)`: the first block that throws ends the map. */
  function NormalizeBlocks(blocks: seq<Value>): (r: Result<seq<Value>, Exception>)
    ensures r.Ok? <==> forall i :: 0 <= i < |blocks| ==> NormalizeBlock(blocks[i]).Ok?
    ensures r.Ok? ==> |r.value| == |blocks| && forall i :: 0 <= i < |blocks| ==> NormalizeBlock(blocks[i]) == Ok(r.value[i])
  {
    if blocks == [] then Ok([])
    else
      match NormalizeBlock(blocks[0])
      case Err(e) => Err(e)
      case Ok(x) =>
        match NormalizeBlocks(blocks[1..])
        case Err(e) =>
          assert exists i :: 0 <= i < |blocks[1..]| && NormalizeBlock(blocks[1..][i]).Err?;
          Err(e)
        case Ok(xs) =>
          assert forall i :: 1 <= i < |blocks| ==> blocks[i] == blocks[1..][i - 1];
          Ok([x] + xs)
  }
}
