/**
 * `mkProps`: the database properties of a page, built from its front matter.
 * Each key is turned into a column label by `titleize`; `Path` becomes the
 * `URL` column holding a link to the file, `Title` the page title, and any
 * other label a rich-text column. A title is made from `path` when no key
 * produced one.
 */
module Properties {
  import opened Wrappers
  import opened Assoc
  import opened Js

  /** The three kinds of property value the tool writes, each with its one text. */
  datatype PropValue = Url(url: string) | TitleText(content: string) | RichText(content: string)

  type Props = seq<Entry<PropValue>>

  /** The column a front-matter key is written to. */
  function Label(titleize: string -> string, k: string): (r: string)
    ensures r != "Path"
    ensures r == "URL" <==> titleize(k) == "Path" || titleize(k) == "URL"
  {
    if titleize(k) == "Path" then "URL" else titleize(k)
  }

  /** The property value a front-matter entry produces. */
  function PropFor(baseurl: string, titleize: string -> string, e: Entry<Value>): PropValue {
    var t := titleize(e.key);
    if t == "Path" then Url(baseurl + "/" + Show(e.val))
    else if t == "Title" then TitleText(Show(e.val))
    else RichText(Show(e.val))
  }

  /** The properties after the `for..in` loop over the front matter's keys. */
  function Fill(baseurl: string, titleize: string -> string, front: seq<Entry<Value>>): Props {
    if front == [] then []
    else
      var n := |front| - 1;
      Put(Fill(baseurl, titleize, front[..n]), Label(titleize, front[n].key), PropFor(baseurl, titleize, front[n]))
  }

  /** The title made from `front.path`, as a template literal prints it. */
  function PathTitle(front: seq<Entry<Value>>): PropValue {
    TitleText(Show(Get(front, "path")))
  }

  /** `mkProps(baseurl, front)`. A property value is an object, so `!properties.Title` holds only when there is none. */
  function PropertiesOf(baseurl: string, titleize: string -> string, front: seq<Entry<Value>>): Props {
    var props := Fill(baseurl, titleize, front);
    if Find(props, "Title").Some? then props else Put(props, "Title", PathTitle(front))
  }

  method MkProps(baseurl: string, titleize: string -> string, front: seq<Entry<Value>>) returns (properties: Props)
    ensures properties == PropertiesOf(baseurl, titleize, front)
  {
    properties := [];
    for i := 0 to |front|
      invariant properties == Fill(baseurl, titleize, front[..i])
    {
      var k := front[i].key;
      var v := front[i].val;
      var prop := titleize(k);
      assert front[..i + 1][..i] == front[..i];
      if prop == "Path" {
        properties := Put(properties, "URL", Url(baseurl + "/" + Show(v)));
      } else if prop == "Title" {
        properties := Put(properties, prop, TitleText(Show(v)));
      } else {
        properties := Put(properties, prop, RichText(Show(v)));
      }
    }
    assert front[..|front|] == front;
    if Find(properties, "Title").None? {
      properties := Put(properties, "Title", TitleText(Show(Get(front, "path"))));
    }
  }

  /** The last entry of the front matter whose key is written to `column`. */
  function LastWithLabel(titleize: string -> string, front: seq<Entry<Value>>, column: string): (r: Option<nat>)
    ensures r.Some? ==> r.value < |front| && Label(titleize, front[r.value].key) == column
    ensures r.Some? ==> forall j :: r.value < j < |front| ==> Label(titleize, front[j].key) != column
    ensures r.None? ==> forall j :: 0 <= j < |front| ==> Label(titleize, front[j].key) != column
  {
    if front == [] then None
    else if Label(titleize, front[|front| - 1].key) == column then Some(|front| - 1)
    else LastWithLabel(titleize, front[..|front| - 1], column)
  }

  lemma LastWithLabelAt(titleize: string -> string, front: seq<Entry<Value>>, column: string, i: nat)
    requires i < |front| && Label(titleize, front[i].key) == column
    requires forall j :: i < j < |front| ==> Label(titleize, front[j].key) != column
    ensures LastWithLabel(titleize, front, column) == Some(i)
  {
  }

  /** After the loop, each column holds what the last key written to it produced. */
  lemma {:induction false} FillLookup(baseurl: string, titleize: string -> string, front: seq<Entry<Value>>, column: string)
    ensures Find(Fill(baseurl, titleize, front), column) ==
      match LastWithLabel(titleize, front, column)
      case None => None
      case Some(i) => Some(PropFor(baseurl, titleize, front[i]))
  {
    if front != [] {
      var n := |front| - 1;
      var init := front[..n];
      var before := Fill(baseurl, titleize, init);
      var l := Label(titleize, front[n].key);
      assert Fill(baseurl, titleize, front) == Put(before, l, PropFor(baseurl, titleize, front[n]));
      if l == column {
        assert LastWithLabel(titleize, front, column) == Some(n);
      } else {
        FillLookup(baseurl, titleize, init, column);
        assert Find(Fill(baseurl, titleize, front), column) == Find(before, column);
        var r := LastWithLabel(titleize, init, column);
        assert LastWithLabel(titleize, front, column) == r;
        if r.Some? {
          assert init[r.value] == front[r.value];
        }
      }
    }
  }

  lemma {:induction false} FillUnique(baseurl: string, titleize: string -> string, front: seq<Entry<Value>>)
    ensures UniqueKeys(Fill(baseurl, titleize, front))
  {
    if front != [] {
      var n := |front| - 1;
      FillUnique(baseurl, titleize, front[..n]);
      PutUnique(Fill(baseurl, titleize, front[..n]), Label(titleize, front[n].key), PropFor(baseurl, titleize, front[n]));
    }
  }

  /**
   * Every column of `mkProps` holds what the last key written to it produced;
   * `Title`, when no key produced it, holds the title made from `path`; no
   * other column exists, and no column is named `Path`.
   */
  lemma PropertiesLookup(baseurl: string, titleize: string -> string, front: seq<Entry<Value>>, column: string)
    ensures Find(PropertiesOf(baseurl, titleize, front), column) ==
      match LastWithLabel(titleize, front, column)
      case Some(i) => Some(PropFor(baseurl, titleize, front[i]))
      case None => if column == "Title" then Some(PathTitle(front)) else None
    ensures Find(PropertiesOf(baseurl, titleize, front), "Path") == None
  {
    var props := Fill(baseurl, titleize, front);
    FillLookup(baseurl, titleize, front, column);
    FillLookup(baseurl, titleize, front, "Title");
    FillLookup(baseurl, titleize, front, "Path");
    assert LastWithLabel(titleize, front, "Path").None?;
    if Find(props, "Title").None? {
      assert PropertiesOf(baseurl, titleize, front) == Put(props, "Title", PathTitle(front));
    }
  }

  /** `mkProps` always has a `Title` column, and it holds a title; its columns are distinct. */
  lemma PropertiesTitle(baseurl: string, titleize: string -> string, front: seq<Entry<Value>>)
    ensures UniqueKeys(PropertiesOf(baseurl, titleize, front))
    ensures var t := Find(PropertiesOf(baseurl, titleize, front), "Title"); t.Some? && t.value.TitleText?
  {
    FillUnique(baseurl, titleize, front);
    PutUnique(Fill(baseurl, titleize, front), "Title", PathTitle(front));
    PropertiesLookup(baseurl, titleize, front, "Title");
  }

  /** A key labelled `Path` writes the link to the file into `URL`. */
  lemma PathBecomesUrl(baseurl: string, titleize: string -> string, front: seq<Entry<Value>>, i: nat)
    requires i < |front| && titleize(front[i].key) == "Path"
    requires forall j :: i < j < |front| ==> Label(titleize, front[j].key) != "URL"
    ensures Find(PropertiesOf(baseurl, titleize, front), "URL") == Some(Url(baseurl + "/" + Show(front[i].val)))
  {
    PropertiesLookup(baseurl, titleize, front, "URL");
    LastWithLabelAt(titleize, front, "URL", i);
  }
}
