/**
 * Splitting a markdown file into its YAML front matter and its body: a file
 * whose first line is exactly `---` carries front matter up to the next line
 * that is exactly `---`; the body is everything after that line.
 */
module FrontMatter {
  import opened Wrappers
  import opened Strings
  import opened Js

  /** The front-matter text (`None` when the file has none) and the body. */
  datatype Header = Header(front: Option<string>, body: string)

  const Delimiter := "---"

  /** The index of the first delimiter line. */
  function FirstDelimiter(lines: seq<string>): (r: Option<nat>)
    ensures r.Some? ==> r.value < |lines| && lines[r.value] == Delimiter
    ensures r.Some? ==> forall i :: 0 <= i < r.value ==> lines[i] != Delimiter
    ensures r.None? ==> forall i :: 0 <= i < |lines| ==> lines[i] != Delimiter
  {
    if lines == [] then None
    else if lines[0] == Delimiter then Some(0)
    else
      match FirstDelimiter(lines[1..])
      case None => None
      case Some(j) => Some(j + 1)
  }

  /** The first delimiter line is the only one with no delimiter before it. */
  lemma FirstDelimiterAt(lines: seq<string>, j: nat)
    requires j < |lines| && lines[j] == Delimiter
    requires forall i :: 0 <= i < j ==> lines[i] != Delimiter
    ensures FirstDelimiter(lines) == Some(j)
  {
  }

  /**
   * The split the loader performs. A file whose first line is not `---` has
   * no front matter and is its own body. Otherwise the closing `---` is
   * looked for among the following lines; the split fails when there is none
   * and, because its index is checked for truthiness, also when it comes right
   * after the opening one.
   */
  function SplitFrontMatter(text: string): (r: Result<Header, Exception>)
    ensures Split(text, '\n')[0] != Delimiter ==> r == Ok(Header(None, text))
    ensures r.Err? ==> r.error == FrontMatterEndNotFound
    ensures r.Ok? && r.value.front.Some? ==> Split(text, '\n')[0] == Delimiter
  {
    var lines := Split(text, '\n');
    if lines[0] != Delimiter then Ok(Header(None, text))
    else
      match FirstDelimiter(lines[1..])
      case None => Err(FrontMatterEndNotFound)
      case Some(j) =>
        if j == 0 then Err(FrontMatterEndNotFound)
        else Ok(Header(Some(Join(lines[1..j + 1], '\n')), Join(lines[j + 2..], '\n')))
  }

  /** The scan of the loader: a `for..in` over the lines after the first, stopping at the first `---`. */
  method ReadFrontMatter(text: string) returns (r: Result<Header, Exception>)
    ensures r == SplitFrontMatter(text)
  {
    var lines := Split(text, '\n');
    if |lines| > 0 && lines[0] == Delimiter {
      var frontMatterLines := lines[1..];
      var frontMatterLen: Option<nat> := None;
      for i := 0 to |frontMatterLines|
        invariant frontMatterLen == None
        invariant forall k :: 0 <= k < i ==> frontMatterLines[k] != Delimiter
      {
        if frontMatterLines[i] == Delimiter {
          frontMatterLen := Some(i);
          FirstDelimiterAt(frontMatterLines, i);
          break;
        }
      }
      if frontMatterLen.None? || frontMatterLen.value == 0 {
        return Err(FrontMatterEndNotFound);
      }
      var j := frontMatterLen.value;
      r := Ok(Header(Some(Join(lines[1..j + 1], '\n')), Join(lines[j + 2..], '\n')));
    } else {
      r := Ok(Header(None, text));
    }
  }

  /** No line of `f` is a delimiter. */
  predicate NoDelimiterLine(f: string) {
    forall i :: 0 <= i < |Split(f, '\n')| ==> Split(f, '\n')[i] != Delimiter
  }

  /** The lines a header around `f` followed by body `b` is made of. */
  function HeaderParts(f: string, b: string): seq<string> {
    [Delimiter] + Split(f, '\n') + [Delimiter] + Split(b, '\n')
  }

  lemma {:induction false} HeaderPartsJoin(f: string, b: string)
    ensures Join(HeaderParts(f, b), '\n') == "---\n" + f + "\n---\n" + b
  {
    var a := Split(f, '\n');
    var c := Split(b, '\n');
    JoinSplit(f, '\n');
    JoinSplit(b, '\n');
    JoinAppend([Delimiter], a, '\n');
    JoinAppend([Delimiter] + a, [Delimiter], '\n');
    JoinAppend([Delimiter] + a + [Delimiter], c, '\n');
  }

  lemma {:induction false} HeaderPartsLines(f: string, b: string)
    ensures forall i :: 0 <= i < |HeaderParts(f, b)| ==> '\n' !in HeaderParts(f, b)[i]
  {
    var a := Split(f, '\n');
    var c := Split(b, '\n');
    var parts := HeaderParts(f, b);
    forall i | 0 <= i < |parts| ensures '\n' !in parts[i] {
      if 1 <= i < 1 + |a| {
        assert parts[i] == a[i - 1];
      } else if i > 1 + |a| {
        assert parts[i] == c[i - 2 - |a|];
      }
    }
  }

  /** The lines of a file made of a header around `f` followed by body `b`. */
  lemma {:induction false} HeaderLines(f: string, b: string)
    ensures Split("---\n" + f + "\n---\n" + b, '\n') == HeaderParts(f, b)
  {
    HeaderPartsJoin(f, b);
    HeaderPartsLines(f, b);
    SplitJoin(HeaderParts(f, b), '\n');
  }

  /** The front matter of a header around `f`: the lines of `f`, then the delimiter. */
  lemma {:induction false} HeaderFirstDelimiter(f: string, b: string)
    requires NoDelimiterLine(f)
    ensures HeaderParts(f, b)[0] == Delimiter && |Split(f, '\n')| > 0
    ensures FirstDelimiter(HeaderParts(f, b)[1..]) == Some(|Split(f, '\n')|)
  {
    var a := Split(f, '\n');
    var tail := HeaderParts(f, b)[1..];
    assert tail == a + [Delimiter] + Split(b, '\n');
    FirstDelimiterAt(tail, |a|);
  }

  lemma {:induction false} HeaderPartsSlices(f: string, b: string)
    ensures var n := |Split(f, '\n')|; var lines := HeaderParts(f, b);
      Join(lines[1..n + 1], '\n') == f && Join(lines[n + 2..], '\n') == b
  {
    var a := Split(f, '\n');
    var lines := HeaderParts(f, b);
    assert lines[1..|a| + 1] == a;
    assert lines[|a| + 2..] == Split(b, '\n');
    JoinSplit(f, '\n');
    JoinSplit(b, '\n');
  }

  /** A header around text with no delimiter line splits back into that text and the body. */
  lemma {:induction false} HeaderRoundTrip(f: string, b: string)
    requires NoDelimiterLine(f)
    ensures SplitFrontMatter("---\n" + f + "\n---\n" + b) == Ok(Header(Some(f), b))
  {
    HeaderLines(f, b);
    HeaderFirstDelimiter(f, b);
    HeaderPartsSlices(f, b);
    SplitAt("---\n" + f + "\n---\n" + b, HeaderParts(f, b), |Split(f, '\n')|, f, b);
  }

  /** A file whose closing delimiter is the `j`-th line after the first, `j > 0`, splits around it. */
  lemma {:induction false} SplitAt(text: string, lines: seq<string>, j: nat, f: string, b: string)
    requires Split(text, '\n') == lines && lines[0] == Delimiter
    requires FirstDelimiter(lines[1..]) == Some(j) && j > 0
    requires Join(lines[1..j + 1], '\n') == f && Join(lines[j + 2..], '\n') == b
    ensures SplitFrontMatter(text) == Ok(Header(Some(f), b))
  {
  }

  /** Joining a delimiter, some lines, a delimiter and the remaining lines. */
  lemma {:induction false} JoinAround(mid: seq<string>, rest: seq<string>)
    requires mid != []
    ensures Join([Delimiter] + mid + [Delimiter] + rest, '\n')
         == "---\n" + Join(mid, '\n') + "\n---" + (if rest == [] then "" else "\n" + Join(rest, '\n'))
  {
    JoinAppend([Delimiter], mid, '\n');
    JoinAppend([Delimiter] + mid, [Delimiter], '\n');
    if rest == [] {
      assert [Delimiter] + mid + [Delimiter] + rest == [Delimiter] + mid + [Delimiter];
    } else {
      JoinAppend([Delimiter] + mid + [Delimiter], rest, '\n');
    }
  }

  /**
   * Every accepted header has this shape: the file is `---`, the front-matter
   * lines (none of them a delimiter), `---`, then the body, the last newline
   * being absent when the file ends at the closing delimiter.
   */
  lemma {:induction false} HeaderShape(text: string)
    requires SplitFrontMatter(text).Ok? && SplitFrontMatter(text).value.front.Some?
    ensures var h := SplitFrontMatter(text).value;
      && NoDelimiterLine(h.front.value)
      && (text == "---\n" + h.front.value + "\n---\n" + h.body
          || (h.body == "" && text == "---\n" + h.front.value + "\n---"))
  {
    var lines := Split(text, '\n');
    var j := FirstDelimiter(lines[1..]).value;
    var mid := lines[1..j + 1];
    var rest := lines[j + 2..];
    var f := Join(mid, '\n');
    var b := Join(rest, '\n');
    assert SplitFrontMatter(text) == Ok(Header(Some(f), b));
    FrontLines(lines, j);
    assert text == Join([Delimiter] + mid + [Delimiter] + rest, '\n') by {
      JoinSplit(text, '\n');
    }
    JoinAround(mid, rest);
    if rest != [] {
      assert "---\n" + f + "\n---" + ("\n" + b) == "---\n" + f + "\n---\n" + b;
    }
  }

  /**
   * The lines of a file are the opening delimiter, the front-matter lines,
   * the closing delimiter and the rest; joined, the front-matter lines split
   * back into themselves, so none of them is a delimiter.
   */
  lemma {:induction false} FrontLines(lines: seq<string>, j: nat)
    requires |lines| >= 1 && lines[0] == Delimiter
    requires forall i :: 0 <= i < |lines| ==> '\n' !in lines[i]
    requires FirstDelimiter(lines[1..]) == Some(j) && j > 0
    ensures lines == [Delimiter] + lines[1..j + 1] + [Delimiter] + lines[j + 2..]
    ensures NoDelimiterLine(Join(lines[1..j + 1], '\n'))
  {
    var mid := lines[1..j + 1];
    forall i | 0 <= i < |mid| ensures '\n' !in mid[i] && mid[i] != Delimiter {
      assert mid[i] == lines[1..][i];
    }
    SplitJoin(mid, '\n');
    assert lines[j + 1] == lines[1..][j];
    assert lines == [lines[0]] + lines[1..j + 1] + [lines[j + 1]] + lines[j + 2..];
  }

  /** A closing `---` right after the opening one is rejected like a missing one. */
  lemma {:induction false} EmptyHeaderRejected(b: string)
    ensures SplitFrontMatter("---\n---\n" + b) == Err(FrontMatterEndNotFound)
    ensures SplitFrontMatter("---\n---") == Err(FrontMatterEndNotFound)
  {
    var two := [Delimiter, Delimiter];
    assert Join(two, '\n') == "---\n---" by {
      assert two[1..] == [Delimiter];
    }
    SplitJoin(two, '\n');
    var c := Split(b, '\n');
    JoinSplit(b, '\n');
    JoinAppend(two, c, '\n');
    assert "---\n---" + "\n" + b == "---\n---\n" + b;
    forall i | 0 <= i < |two + c| ensures '\n' !in (two + c)[i] {
      if i >= 2 { assert (two + c)[i] == c[i - 2]; }
    }
    SplitJoin(two + c, '\n');
    assert (two + c)[1..][0] == Delimiter;
  }

  /** Without a closing `---` the split fails. */
  lemma {:induction false} UnclosedRejected(f: string)
    requires NoDelimiterLine(f)
    ensures SplitFrontMatter("---\n" + f) == Err(FrontMatterEndNotFound)
    ensures SplitFrontMatter(Delimiter) == Err(FrontMatterEndNotFound)
  {
    var lines := [Delimiter] + Split(f, '\n');
    assert Split("---\n" + f, '\n') == lines by { OpenedLines(f); }
    assert lines[1..] == Split(f, '\n');
    SplitJoin([Delimiter], '\n');
  }

  /** The lines of a file that opens with a delimiter line followed by `f`. */
  lemma {:induction false} OpenedLines(f: string)
    ensures Split("---\n" + f, '\n') == [Delimiter] + Split(f, '\n')
  {
    var a := Split(f, '\n');
    JoinSplit(f, '\n');
    JoinAppend([Delimiter], a, '\n');
    assert Delimiter + "\n" + f == "---\n" + f;
    forall i | 0 <= i < |[Delimiter] + a| ensures '\n' !in ([Delimiter] + a)[i] {
      if i >= 1 { assert ([Delimiter] + a)[i] == a[i - 1]; }
    }
    SplitJoin([Delimiter] + a, '\n');
  }
}
