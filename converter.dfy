/** The item loop of `process_xml` (streamlit_app.py, lines 7-47).

    The parsed export is a sequence of items, each with its title text and
    the text of its `wp:post_content` element (None when the element is
    missing or has no text). `markdownify` is the parameter `md`, the
    character test `isalnum` the parameter `isAlnum`. The working directory
    is a map from file name to file contents; each write replaces the entry
    for its name. */
module Converter {
  import opened Seqs
  import opened Sanitizer

  datatype Option<T> = None | Some(value: T)

  /** One `<item>` of the export. */
  datatype Item = Item(title: string, content: Option<string>)

  /** The working directory: file name to file contents. */
  type Directory = map<string, string>

  /** The single file written in concatenate mode. */
  const ConcatenatedName: string := "all_pages.md"

  /** Lines 22-23: only items with content are converted. */
  predicate HasContent(item: Item) {
    item.content.Some?
  }

  /** The items the loop converts, in document order. */
  function WithContent(items: seq<Item>): seq<Item> {
    Filter(HasContent, items)
  }

  /** Line 27: the file name of an item in individual mode. */
  function FileName(isAlnum: char -> bool, title: string): string {
    Sanitize(isAlnum, title) + ".md"
  }

  /** Line 37: the body of an individual file; it carries the title as it
      was, not the sanitized one. */
  function FileBody(md: string -> string, title: string, html: string): string {
    "# " + title + "\n\n" + md(html)
  }

  /** Line 33: one block of the concatenated text. */
  function Block(md: string -> string, title: string, html: string): string {
    FileBody(md, title, html) + "\n\n"
  }

  /** The `txt_files` list after the loop over `items` in individual mode. */
  function IndividualNames(isAlnum: char -> bool, items: seq<Item>): seq<string> {
    if items == [] then []
    else
      var last := items[|items| - 1];
      IndividualNames(isAlnum, items[..|items| - 1]) +
        (if HasContent(last) then [FileName(isAlnum, last.title)] else [])
  }

  /** The directory after the loop over `items` in individual mode. */
  function IndividualFiles(isAlnum: char -> bool, md: string -> string, dir: Directory, items: seq<Item>): Directory {
    if items == [] then dir
    else
      var last := items[|items| - 1];
      var before := IndividualFiles(isAlnum, md, dir, items[..|items| - 1]);
      match last.content
      case None => before
      case Some(html) => before[FileName(isAlnum, last.title) := FileBody(md, last.title, html)]
  }

  /** `concatenated_content` after the loop over `items` in concatenate mode. */
  function Concatenated(md: string -> string, items: seq<Item>): string {
    if items == [] then ""
    else
      var last := items[|items| - 1];
      var before := Concatenated(md, items[..|items| - 1]);
      match last.content
      case None => before
      case Some(html) => before + Block(md, last.title, html)
  }

  /** The list `process_xml` returns. */
  function RunNames(isAlnum: char -> bool, md: string -> string, items: seq<Item>, concatenate: bool): seq<string> {
    if !concatenate then IndividualNames(isAlnum, items)
    else if Concatenated(md, items) != "" then [ConcatenatedName]
    else []
  }

  /** The working directory after `process_xml`. */
  function RunDirectory(isAlnum: char -> bool, md: string -> string, dir: Directory, items: seq<Item>, concatenate: bool): Directory {
    if !concatenate then IndividualFiles(isAlnum, md, dir, items)
    else if Concatenated(md, items) != "" then dir[ConcatenatedName := Concatenated(md, items)]
    else dir
  }

  /** Lines 7-47. Returns the file list and the new directory of the run, and
      the list is empty exactly when no item has content, the condition the
      caller reports as "No valid content" (line 74). */
  method ProcessXml(items: seq<Item>, concatenate: bool, isAlnum: char -> bool, md: string -> string, dir: Directory)
    returns (txtFiles: seq<string>, dir': Directory)
    ensures txtFiles == RunNames(isAlnum, md, items, concatenate)
    ensures dir' == RunDirectory(isAlnum, md, dir, items, concatenate)
    ensures txtFiles == [] <==> WithContent(items) == []
  {
    txtFiles := [];
    var concatenatedContent := "";
    dir' := dir;
    for i := 0 to |items|
      invariant concatenate ==> txtFiles == [] && dir' == dir && concatenatedContent == Concatenated(md, items[..i])
      invariant !concatenate ==> txtFiles == IndividualNames(isAlnum, items[..i]) && dir' == IndividualFiles(isAlnum, md, dir, items[..i])
    {
      var item := items[i];
      PrefixStep(isAlnum, md, dir, items, i);
      if item.content.None? {
        continue;
      }
      var sanitizedTitle := Sanitize(isAlnum, item.title);
      var filename := sanitizedTitle + ".md";
      var markdownContent := md(item.content.value);
      if concatenate {
        concatenatedContent := concatenatedContent + ("# " + item.title + "\n\n" + markdownContent + "\n\n");
      } else {
        dir' := dir'[filename := "# " + item.title + "\n\n" + markdownContent];
        txtFiles := txtFiles + [filename];
      }
    }
    assert items[..|items|] == items;
    if concatenate && concatenatedContent != "" {
      dir' := dir'[ConcatenatedName := concatenatedContent];
      txtFiles := txtFiles + [ConcatenatedName];
    }
    RunEmptyIff(isAlnum, md, items, concatenate);
  }

  /** What one more item does to the run over a prefix of `items`. */
  lemma PrefixStep(isAlnum: char -> bool, md: string -> string, dir: Directory, items: seq<Item>, i: nat)
    requires i < |items|
    ensures items[i].content.None? ==>
      IndividualNames(isAlnum, items[..i + 1]) == IndividualNames(isAlnum, items[..i]) &&
      IndividualFiles(isAlnum, md, dir, items[..i + 1]) == IndividualFiles(isAlnum, md, dir, items[..i]) &&
      Concatenated(md, items[..i + 1]) == Concatenated(md, items[..i])
    ensures items[i].content.Some? ==>
      IndividualNames(isAlnum, items[..i + 1]) == IndividualNames(isAlnum, items[..i]) + [FileName(isAlnum, items[i].title)] &&
      IndividualFiles(isAlnum, md, dir, items[..i + 1]) ==
        IndividualFiles(isAlnum, md, dir, items[..i])[FileName(isAlnum, items[i].title) := FileBody(md, items[i].title, items[i].content.value)] &&
      Concatenated(md, items[..i + 1]) == Concatenated(md, items[..i]) + Block(md, items[i].title, items[i].content.value)
  {
    assert items[..i + 1][..i] == items[..i];
  }

  // ---------------------------------------------------------------------
  // Properties of a run
  // ---------------------------------------------------------------------

  /** The items without content are not in `WithContent`: the converted
      items of `a + b` are those of `a` followed by those of `b`. */
  lemma WithContentAppend(a: seq<Item>, b: seq<Item>)
    ensures WithContent(a + b) == WithContent(a) + WithContent(b)
  {
    FilterAppend(HasContent, a, b);
  }

  /** The converted items of a non-empty sequence: those of all but its last
      item, then the last one if it has content. */
  lemma WithContentLast(items: seq<Item>)
    requires items != []
    ensures WithContent(items) ==
      WithContent(items[..|items| - 1]) + (if HasContent(items[|items| - 1]) then [items[|items| - 1]] else [])
  {
    var init, last := items[..|items| - 1], items[|items| - 1];
    assert items == init + [last];
    WithContentAppend(init, [last]);
    assert [last][1..] == [];
  }

  /** An item whose title has only characters the filter drops (anything
      but alphanumerics, space, `-` and `_`) and whitespace is written to the
      file `.md`. */
  lemma PunctuationTitleFileName(isAlnum: char -> bool, title: string)
    requires forall k :: 0 <= k < |title| ==> !Keep(isAlnum, title[k]) || IsSpace(title[k])
    ensures FileName(isAlnum, title) == ".md"
  {
    SanitizeToEmpty(isAlnum, title);
    assert "" + ".md" == ".md";
  }

  /** In individual mode the list has one entry per item with content, in
      document order, each the sanitized title of that item plus `.md`.
      Two items whose titles sanitize alike give two equal entries: nothing
      is merged or renamed. */
  lemma {:induction false} IndividualNamesAreFileNames(isAlnum: char -> bool, items: seq<Item>)
    ensures |IndividualNames(isAlnum, items)| == |WithContent(items)|
    ensures forall k :: 0 <= k < |WithContent(items)| ==>
      IndividualNames(isAlnum, items)[k] == FileName(isAlnum, WithContent(items)[k].title)
  {
    if items != [] {
      var init, last := items[..|items| - 1], items[|items| - 1];
      IndividualNamesAreFileNames(isAlnum, init);
      WithContentLast(items);
    }
  }

  /** In individual mode the directory afterwards holds exactly the names it
      held before and the returned names, and an entry whose name is not
      returned is untouched. */
  lemma {:induction false} IndividualFilesDomain(isAlnum: char -> bool, md: string -> string, dir: Directory, items: seq<Item>)
    ensures forall n :: n in IndividualFiles(isAlnum, md, dir, items) <==> n in dir || n in IndividualNames(isAlnum, items)
    ensures forall n :: n in dir && n !in IndividualNames(isAlnum, items) ==> IndividualFiles(isAlnum, md, dir, items)[n] == dir[n]
  {
    if items != [] {
      IndividualFilesDomain(isAlnum, md, dir, items[..|items| - 1]);
    }
  }

  /** Last write wins: the file of a name holds the body, with the original
      title, of the last item with content whose title sanitizes to that
      name. */
  lemma {:induction false} LastWriteWins(isAlnum: char -> bool, md: string -> string, dir: Directory, items: seq<Item>, k: nat)
    requires k < |WithContent(items)|
    requires forall j :: k < j < |WithContent(items)| ==>
      FileName(isAlnum, WithContent(items)[j].title) != FileName(isAlnum, WithContent(items)[k].title)
    ensures FileName(isAlnum, WithContent(items)[k].title) in IndividualFiles(isAlnum, md, dir, items)
    ensures IndividualFiles(isAlnum, md, dir, items)[FileName(isAlnum, WithContent(items)[k].title)] ==
      FileBody(md, WithContent(items)[k].title, WithContent(items)[k].content.value)
  {
    var init, last := items[..|items| - 1], items[|items| - 1];
    WithContentLast(items);
    var p, q := WithContent(items), WithContent(init);
    var name := FileName(isAlnum, p[k].title);
    if k < |q| {
      assert p[k] == q[k];
      forall j | k < j < |q|
        ensures FileName(isAlnum, q[j].title) != name
      {
        assert p[j] == q[j];
      }
      LastWriteWins(isAlnum, md, dir, init, k);
      if HasContent(last) {
        assert p[|p| - 1] == last;
        assert FileName(isAlnum, last.title) != name;
      }
    } else {
      assert HasContent(last) && p[k] == last;
    }
  }

  /** The concatenated text is empty exactly when no item has content. */
  lemma {:induction false} ConcatenatedEmptyIff(md: string -> string, items: seq<Item>)
    ensures Concatenated(md, items) == "" <==> WithContent(items) == []
  {
    if items != [] {
      var init, last := items[..|items| - 1], items[|items| - 1];
      ConcatenatedEmptyIff(md, init);
      WithContentLast(items);
      match last.content
      case None =>
      case Some(html) =>
        assert |Block(md, last.title, html)| > 0;
    }
  }

  /** The concatenated text of the items of `a + b` is that of `a` followed by
      that of `b`. */
  lemma {:induction false} ConcatenatedAppend(md: string -> string, a: seq<Item>, b: seq<Item>)
    ensures Concatenated(md, a + b) == Concatenated(md, a) + Concatenated(md, b)
  {
    if b == [] {
      assert a + b == a;
    } else {
      var ab, init, last := a + b, b[..|b| - 1], b[|b| - 1];
      assert ab[..|ab| - 1] == a + init && ab[|ab| - 1] == last;
      ConcatenatedAppend(md, a, init);
      var before := Concatenated(md, a + init);
      assert before == Concatenated(md, a) + Concatenated(md, init);
      match last.content
      case None =>
        assert Concatenated(md, ab) == before;
        assert Concatenated(md, b) == Concatenated(md, init);
      case Some(html) =>
        var block := Block(md, last.title, html);
        assert Concatenated(md, ab) == before + block;
        assert Concatenated(md, b) == Concatenated(md, init) + block;
        assert (Concatenated(md, a) + Concatenated(md, init)) + block ==
          Concatenated(md, a) + (Concatenated(md, init) + block);
    }
  }

  /** The directory after individual mode on `a + b` is the one after `b`
      started from the one after `a`. */
  lemma {:induction false} IndividualFilesAppend(isAlnum: char -> bool, md: string -> string, dir: Directory, a: seq<Item>, b: seq<Item>)
    ensures IndividualFiles(isAlnum, md, dir, a + b) == IndividualFiles(isAlnum, md, IndividualFiles(isAlnum, md, dir, a), b)
  {
    if b == [] {
      assert a + b == a;
    } else {
      var init, last := b[..|b| - 1], b[|b| - 1];
      assert b == init + [last];
      assert a + b == (a + init) + [last];
      IndividualFilesAppend(isAlnum, md, dir, a, init);
      IndividualFilesSnoc(isAlnum, md, dir, a + init, last);
      IndividualFilesSnoc(isAlnum, md, IndividualFiles(isAlnum, md, dir, a), init, last);
    }
  }

  /** Individual mode's directory after one more item. */
  lemma IndividualFilesSnoc(isAlnum: char -> bool, md: string -> string, dir: Directory, init: seq<Item>, last: Item)
    ensures IndividualFiles(isAlnum, md, dir, init + [last]) ==
      match last.content
      case None => IndividualFiles(isAlnum, md, dir, init)
      case Some(html) => IndividualFiles(isAlnum, md, dir, init)[FileName(isAlnum, last.title) := FileBody(md, last.title, html)]
  {
    var s := init + [last];
    assert s[..|s| - 1] == init && s[|s| - 1] == last;
  }

  /** The list of individual mode on `a + b` is that of `a` followed by that
      of `b`. */
  lemma {:induction false} IndividualNamesAppend(isAlnum: char -> bool, a: seq<Item>, b: seq<Item>)
    ensures IndividualNames(isAlnum, a + b) == IndividualNames(isAlnum, a) + IndividualNames(isAlnum, b)
  {
    if b == [] {
      assert a + b == a;
    } else {
      var ab, init, last := a + b, b[..|b| - 1], b[|b| - 1];
      assert ab[..|ab| - 1] == a + init && ab[|ab| - 1] == last;
      IndividualNamesAppend(isAlnum, a, init);
      var added := if HasContent(last) then [FileName(isAlnum, last.title)] else [];
      assert IndividualNames(isAlnum, ab) == IndividualNames(isAlnum, a + init) + added;
      assert IndividualNames(isAlnum, b) == IndividualNames(isAlnum, init) + added;
      assert (IndividualNames(isAlnum, a) + IndividualNames(isAlnum, init)) + added ==
        IndividualNames(isAlnum, a) + (IndividualNames(isAlnum, init) + added);
    }
  }

  /** An item without content adds no name to the list of individual mode. */
  lemma AbsentAddsNoName(isAlnum: char -> bool, a: seq<Item>, title: string, b: seq<Item>)
    ensures IndividualNames(isAlnum, a + [Item(title, None)] + b) == IndividualNames(isAlnum, a + b)
  {
    var a' := a + [Item(title, None)];
    assert a'[..|a'| - 1] == a;
    IndividualNamesAppend(isAlnum, a', b);
    IndividualNamesAppend(isAlnum, a, b);
  }

  /** An item without content writes no file in individual mode. */
  lemma AbsentWritesNoFile(isAlnum: char -> bool, md: string -> string, dir: Directory, a: seq<Item>, title: string, b: seq<Item>)
    ensures IndividualFiles(isAlnum, md, dir, a + [Item(title, None)] + b) == IndividualFiles(isAlnum, md, dir, a + b)
  {
    var a' := a + [Item(title, None)];
    assert a'[..|a'| - 1] == a;
    IndividualFilesAppend(isAlnum, md, dir, a', b);
    IndividualFilesAppend(isAlnum, md, dir, a, b);
  }

  /** An item without content adds no text to the concatenation. */
  lemma AbsentAddsNoText(md: string -> string, a: seq<Item>, title: string, b: seq<Item>)
    ensures Concatenated(md, a + [Item(title, None)] + b) == Concatenated(md, a + b)
  {
    var a' := a + [Item(title, None)];
    assert a'[..|a'| - 1] == a;
    ConcatenatedAppend(md, a', b);
    ConcatenatedAppend(md, a, b);
  }

  /** An item without content contributes nothing, wherever it stands: no
      file name, no file, no text in the concatenation, in either mode. */
  lemma AbsentContributesNothing(isAlnum: char -> bool, md: string -> string, dir: Directory,
                                 a: seq<Item>, title: string, b: seq<Item>, concatenate: bool)
    ensures RunNames(isAlnum, md, a + [Item(title, None)] + b, concatenate) == RunNames(isAlnum, md, a + b, concatenate)
    ensures RunDirectory(isAlnum, md, dir, a + [Item(title, None)] + b, concatenate) == RunDirectory(isAlnum, md, dir, a + b, concatenate)
  {
    AbsentAddsNoName(isAlnum, a, title, b);
    AbsentWritesNoFile(isAlnum, md, dir, a, title, b);
    AbsentAddsNoText(md, a, title, b);
  }

  /** In concatenate mode no individual file is written: the list is
      `["all_pages.md"]` and that file holds the concatenated text when some
      item has content, and otherwise the list is empty and the directory
      unchanged. */
  lemma ConcatenateMode(isAlnum: char -> bool, md: string -> string, dir: Directory, items: seq<Item>)
    ensures WithContent(items) != [] ==>
      RunNames(isAlnum, md, items, true) == [ConcatenatedName] &&
      RunDirectory(isAlnum, md, dir, items, true) == dir[ConcatenatedName := Concatenated(md, items)]
    ensures WithContent(items) == [] ==>
      RunNames(isAlnum, md, items, true) == [] && RunDirectory(isAlnum, md, dir, items, true) == dir
  {
    ConcatenatedEmptyIff(md, items);
  }

  /** In either mode the list is empty exactly when no item has content. */
  lemma RunEmptyIff(isAlnum: char -> bool, md: string -> string, items: seq<Item>, concatenate: bool)
    ensures RunNames(isAlnum, md, items, concatenate) == [] <==> WithContent(items) == []
  {
    ConcatenatedEmptyIff(md, items);
    IndividualNamesAreFileNames(isAlnum, items);
  }

  /** The concatenation as an independent definition: the blocks of the
      converted items, front to back. */
  function Blocks(md: string -> string, pages: seq<Item>): string
    requires forall k :: 0 <= k < |pages| ==> HasContent(pages[k])
  {
    if pages == [] then ""
    else
      assert HasContent(pages[0]);
      Block(md, pages[0].title, pages[0].content.value) + Blocks(md, pages[1..])
  }

  /** The concatenated text is the in-order concatenation of one block per
      item with content. */
  lemma {:induction false} ConcatenatedIsBlocks(md: string -> string, items: seq<Item>)
    ensures forall k :: 0 <= k < |WithContent(items)| ==> HasContent(WithContent(items)[k])
    ensures Concatenated(md, items) == Blocks(md, WithContent(items))
    decreases |items|
  {
    if items != [] {
      var first, rest := items[0], items[1..];
      assert items == [first] + rest;
      assert [first][..0] == [];
      ConcatenatedAppend(md, [first], rest);
      WithContentAppend([first], rest);
      assert [first][1..] == [];
      ConcatenatedIsBlocks(md, rest);
    }
  }

  /** A concrete run with ASCII `isalnum`: two items whose titles sanitize
      to the same name and one item without content between them.
      Individual mode lists the name twice, and the file holds the second
      body, with the second item's own title. */
  lemma DuplicateTitlesIndividual(md: string -> string, dir: Directory, x: string, y: string)
    ensures RunNames(AsciiAlnum, md, [Item("A!", Some(x)), Item("B", None), Item("A?", Some(y))], false) == ["A.md", "A.md"]
    ensures RunDirectory(AsciiAlnum, md, dir, [Item("A!", Some(x)), Item("B", None), Item("A?", Some(y))], false) ==
      dir["A.md" := FileBody(md, "A?", y)]
  {
    var items := [Item("A!", Some(x)), Item("B", None), Item("A?", Some(y))];
    SanitizeDropsPunctuation();
    SanitizeDropsQuestionMark();
    assert FileName(AsciiAlnum, "A!") == "A.md" == FileName(AsciiAlnum, "A?");
    assert items[..2][..1][..0] == [];
    assert items[..2][..1] == [Item("A!", Some(x))];
    assert items[..2] == [Item("A!", Some(x)), Item("B", None)];
    assert IndividualNames(AsciiAlnum, items[..2][..1]) == ["A.md"];
    assert IndividualNames(AsciiAlnum, items[..2]) == ["A.md"];
    assert IndividualFiles(AsciiAlnum, md, dir, items[..2][..1]) == dir["A.md" := FileBody(md, "A!", x)];
    assert IndividualFiles(AsciiAlnum, md, dir, items[..2]) == dir["A.md" := FileBody(md, "A!", x)];
  }

  /** The same run in concatenate mode writes both blocks, in order, to
      `all_pages.md` and nothing else. */
  lemma DuplicateTitlesConcatenated(md: string -> string, dir: Directory, x: string, y: string)
    ensures RunNames(AsciiAlnum, md, [Item("A!", Some(x)), Item("B", None), Item("A?", Some(y))], true) == ["all_pages.md"]
    ensures RunDirectory(AsciiAlnum, md, dir, [Item("A!", Some(x)), Item("B", None), Item("A?", Some(y))], true) ==
      dir["all_pages.md" := Block(md, "A!", x) + Block(md, "A?", y)]
  {
    var items := [Item("A!", Some(x)), Item("B", None), Item("A?", Some(y))];
    assert items[..2][..1][..0] == [];
    assert items[..2][..1] == [Item("A!", Some(x))];
    assert items[..2] == [Item("A!", Some(x)), Item("B", None)];
    assert "" + Block(md, "A!", x) == Block(md, "A!", x);
    assert Concatenated(md, items[..2][..1]) == Block(md, "A!", x);
    assert Concatenated(md, items[..2]) == Block(md, "A!", x);
  }
}
