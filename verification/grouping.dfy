/**
 The grouping loop of the export script: the page query yields rows of
 (document title, image uuid), already ordered by document and page order,
 and each row appends the path of its image to the list of its title.
 The dictionary's insertion order (the order titles first appear) is kept
 explicitly as a sequence of titles.
 */
module Grouping {
  import opened Paths

  /** One row of the page query: the title of the page's document and the uuid of its image. */
  datatype Row = Row(title: string, uuid: string)

  /** The `documents` dictionary: the image paths of every title, and the titles in insertion order. */
  datatype Documents = Documents(order: seq<string>, pages: map<string, seq<Path>>)

  /** The dictionary before the first row. */
  const NoDocuments: Documents := Documents([], map[])

  predicate Distinct<T(==)>(s: seq<T>)
  {
    forall i, j :: 0 <= i < j < |s| ==> s[i] != s[j]
  }

  /** What the loop keeps true: each key is listed once in insertion order, and no list is empty. */
  predicate Valid(d: Documents)
  {
    && Distinct(d.order)
    && (forall t :: t in d.order ==> t in d.pages)
    && (forall t :: t in d.pages ==> t in d.order)
    && (forall t :: t in d.pages ==> |d.pages[t]| > 0)
  }

  /** The list of a title, empty when the title has no key. */
  function PagesIn(d: Documents, title: string): seq<Path>
  {
    if title in d.pages then d.pages[title] else []
  }

  /** One iteration of the loop: create the title's empty list if it is new, then append the row's image. */
  function AddRow(d: Documents, imageDir: string, row: Row): (d': Documents)
    ensures Valid(d) ==> Valid(d')
    ensures row.title in d'.pages
    ensures PagesIn(d', row.title) == PagesIn(d, row.title) + [ImagePath(imageDir, row.uuid)]
    ensures forall t :: t != row.title ==> PagesIn(d', t) == PagesIn(d, t) && (t in d'.pages <==> t in d.pages)
    ensures Valid(d) ==> d'.order == d.order + (if row.title in d.order then [] else [row.title])
  {
    var d1 := if row.title in d.pages then d
              else Documents(d.order + [row.title], d.pages[row.title := []]);
    Documents(d1.order, d1.pages[row.title := d1.pages[row.title] + [ImagePath(imageDir, row.uuid)]])
  }

  /** The dictionary after the loop has consumed all `rows`, in order. */
  function Group(imageDir: string, rows: seq<Row>): (d: Documents)
    ensures Valid(d)
    decreases |rows|
  {
    if rows == [] then NoDocuments
    else AddRow(Group(imageDir, rows[..|rows| - 1]), imageDir, rows[|rows| - 1])
  }

  // ---------------------------------------------------------------------------
  // Reference definitions, stated directly on the rows

  /** Some row carries `title`. */
  predicate HasTitle(rows: seq<Row>, title: string)
  {
    exists i :: 0 <= i < |rows| && rows[i].title == title
  }

  /** The image paths of the rows carrying `title`, in row order. */
  function PagesOf(imageDir: string, rows: seq<Row>, title: string): seq<Path>
  {
    if rows == [] then []
    else (if rows[0].title == title then [ImagePath(imageDir, rows[0].uuid)] else [])
         + PagesOf(imageDir, rows[1..], title)
  }

  /** Index of the first row that carries `title`. */
  function FirstIndex(rows: seq<Row>, title: string): (k: nat)
    requires HasTitle(rows, title)
    ensures k < |rows| && rows[k].title == title
    ensures forall j :: 0 <= j < k ==> rows[j].title != title
  {
    if rows[0].title == title then 0
    else
      assert HasTitle(rows[1..], title) by {
        var i :| 0 <= i < |rows| && rows[i].title == title;
        assert rows[1..][i - 1] == rows[i];
      }
      1 + FirstIndex(rows[1..], title)
  }

  /** Total number of paths in the lists of `order`. */
  function TotalPages(order: seq<string>, pages: map<string, seq<Path>>): nat
  {
    if order == [] then 0
    else (if order[0] in pages then |pages[order[0]]| else 0) + TotalPages(order[1..], pages)
  }

  // ---------------------------------------------------------------------------
  // Properties of the grouping

  lemma {:induction false} PagesOfSnoc(imageDir: string, rows: seq<Row>, row: Row, title: string)
    ensures PagesOf(imageDir, rows + [row], title)
            == PagesOf(imageDir, rows, title) + (if row.title == title then [ImagePath(imageDir, row.uuid)] else [])
    decreases |rows|
  {
    var tail := if row.title == title then [ImagePath(imageDir, row.uuid)] else [];
    if rows == [] {
      assert [] + [row] == [row];
      assert PagesOf(imageDir, [row], title) == tail + PagesOf(imageDir, [], title);
    } else {
      var head := if rows[0].title == title then [ImagePath(imageDir, rows[0].uuid)] else [];
      assert (rows + [row])[0] == rows[0];
      assert (rows + [row])[1..] == rows[1..] + [row];
      PagesOfSnoc(imageDir, rows[1..], row, title);
      calc {
        PagesOf(imageDir, rows + [row], title);
        head + PagesOf(imageDir, rows[1..] + [row], title);
        head + (PagesOf(imageDir, rows[1..], title) + tail);
        (head + PagesOf(imageDir, rows[1..], title)) + tail;
        PagesOf(imageDir, rows, title) + tail;
      }
    }
  }

  /** The list of every title is the paths of the rows with that title, in input order. */
  lemma {:induction false} GroupPages(imageDir: string, rows: seq<Row>)
    ensures forall t :: PagesIn(Group(imageDir, rows), t) == PagesOf(imageDir, rows, t)
    decreases |rows|
  {
    if rows != [] {
      var prefix, last := rows[..|rows| - 1], rows[|rows| - 1];
      assert rows == prefix + [last];
      GroupPages(imageDir, prefix);
      forall t ensures PagesIn(Group(imageDir, rows), t) == PagesOf(imageDir, rows, t) {
        PagesOfSnoc(imageDir, prefix, last, t);
      }
    }
  }

  lemma {:induction false} PagesOfEmpty(imageDir: string, rows: seq<Row>, title: string)
    ensures PagesOf(imageDir, rows, title) == [] <==> !HasTitle(rows, title)
    decreases |rows|
  {
    if rows != [] {
      PagesOfEmpty(imageDir, rows[1..], title);
      if HasTitle(rows[1..], title) {
        var i :| 0 <= i < |rows[1..]| && rows[1..][i].title == title;
        assert rows[i + 1].title == title;
      }
      if HasTitle(rows, title) && rows[0].title != title {
        var i :| 0 <= i < |rows| && rows[i].title == title;
        assert rows[1..][i - 1].title == title;
      }
    }
  }

  /** A title is a key exactly when some row carries it, and its list is then nonempty. */
  lemma {:induction false} GroupKeys(imageDir: string, rows: seq<Row>)
    ensures forall t :: t in Group(imageDir, rows).pages <==> HasTitle(rows, t)
    ensures forall t :: t in Group(imageDir, rows).pages ==> |Group(imageDir, rows).pages[t]| > 0
  {
    var d := Group(imageDir, rows);
    GroupPages(imageDir, rows);
    forall t ensures t in d.pages <==> HasTitle(rows, t) {
      PagesOfEmpty(imageDir, rows, t);
      assert PagesIn(d, t) == PagesOf(imageDir, rows, t);
    }
  }

  lemma FirstIndexSnoc(rows: seq<Row>, row: Row, title: string)
    requires HasTitle(rows, title)
    ensures HasTitle(rows + [row], title)
    ensures FirstIndex(rows + [row], title) == FirstIndex(rows, title)
  {
    var k := FirstIndex(rows, title);
    assert (rows + [row])[k] == rows[k];
  }

  /** Every title of `order` has a row, and the titles appear in the order of their first rows. */
  ghost predicate InFirstRowOrder(rows: seq<Row>, order: seq<string>)
  {
    && (forall i :: 0 <= i < |order| ==> HasTitle(rows, order[i]))
    && (forall i, j :: 0 <= i < j < |order| ==> FirstIndex(rows, order[i]) < FirstIndex(rows, order[j]))
  }

  /** A row appended after the last one moves no title's first row. */
  lemma FirstRowOrderSnoc(rows: seq<Row>, row: Row, order: seq<string>)
    requires InFirstRowOrder(rows, order)
    ensures InFirstRowOrder(rows + [row], order)
  {
    forall i | 0 <= i < |order|
      ensures HasTitle(rows + [row], order[i]) && FirstIndex(rows + [row], order[i]) == FirstIndex(rows, order[i])
    {
      FirstIndexSnoc(rows, row, order[i]);
    }
  }

  /** A row with a title not seen before has its title's first row last. */
  lemma FirstRowOrderNew(rows: seq<Row>, row: Row, order: seq<string>)
    requires InFirstRowOrder(rows, order)
    requires !HasTitle(rows, row.title)
    ensures InFirstRowOrder(rows + [row], order + [row.title])
  {
    var rows', order' := rows + [row], order + [row.title];
    FirstRowOrderSnoc(rows, row, order);
    assert rows'[|rows|] == row;
    var k := FirstIndex(rows', row.title);
    assert k == |rows|;
    forall i, j | 0 <= i < j < |order'|
      ensures FirstIndex(rows', order'[i]) < FirstIndex(rows', order'[j])
    {
      assert order'[i] == order[i];
      if j < |order| {
        assert order'[j] == order[j];
      } else {
        FirstIndexSnoc(rows, row, order[i]);
      }
    }
  }

  /** Titles are listed once each, exactly the titles of the rows, in the order of their first row. */
  lemma {:induction false} GroupOrder(imageDir: string, rows: seq<Row>)
    ensures Distinct(Group(imageDir, rows).order)
    ensures forall t :: t in Group(imageDir, rows).order <==> HasTitle(rows, t)
    ensures InFirstRowOrder(rows, Group(imageDir, rows).order)
    decreases |rows|
  {
    GroupKeys(imageDir, rows);
    if rows != [] {
      var prefix, last := rows[..|rows| - 1], rows[|rows| - 1];
      assert rows == prefix + [last];
      GroupOrder(imageDir, prefix);
      var p, d := Group(imageDir, prefix), Group(imageDir, rows);
      if last.title in p.order {
        assert d.order == p.order;
        FirstRowOrderSnoc(prefix, last, p.order);
      } else {
        assert d.order == p.order + [last.title];
        FirstRowOrderNew(prefix, last, p.order);
      }
    }
  }

  lemma {:induction false} TotalPagesUpdate(order: seq<string>, pages: map<string, seq<Path>>, title: string, v: seq<Path>)
    requires Distinct(order)
    requires title in order
    requires title in pages
    ensures TotalPages(order, pages[title := v]) + |pages[title]| == TotalPages(order, pages) + |v|
    decreases |order|
  {
    if order[0] == title {
      TotalPagesFrame(order[1..], pages, title, v);
    } else {
      assert title in order[1..];
      TotalPagesUpdate(order[1..], pages, title, v);
    }
  }

  lemma {:induction false} TotalPagesFrame(order: seq<string>, pages: map<string, seq<Path>>, title: string, v: seq<Path>)
    requires Distinct(order)
    requires title !in order
    ensures TotalPages(order, pages[title := v]) == TotalPages(order, pages)
    decreases |order|
  {
    if order != [] {
      TotalPagesFrame(order[1..], pages, title, v);
    }
  }

  lemma {:induction false} TotalPagesSnoc(order: seq<string>, pages: map<string, seq<Path>>, title: string)
    ensures TotalPages(order + [title], pages) == TotalPages(order, pages) + (if title in pages then |pages[title]| else 0)
    decreases |order|
  {
    if order == [] {
      assert [] + [title] == [title];
    } else {
      assert (order + [title])[1..] == order[1..] + [title];
      TotalPagesSnoc(order[1..], pages, title);
    }
  }

  /** A row with a new title gives the title a one-path list at the end of the order. */
  lemma AddRowNew(d: Documents, imageDir: string, row: Row)
    requires row.title !in d.pages
    ensures AddRow(d, imageDir, row)
            == Documents(d.order + [row.title], d.pages[row.title := [ImagePath(imageDir, row.uuid)]])
  {
    assert [] + [ImagePath(imageDir, row.uuid)] == [ImagePath(imageDir, row.uuid)];
  }

  /** Two rows with different titles make two documents of one page each, in row order. */
  lemma GroupTwoTitles(imageDir: string, r1: Row, r2: Row)
    requires r1.title != r2.title
    ensures Group(imageDir, [r1, r2])
            == Documents([r1.title, r2.title],
                         map[r1.title := [ImagePath(imageDir, r1.uuid)], r2.title := [ImagePath(imageDir, r2.uuid)]])
  {
    var p1, p2 := ImagePath(imageDir, r1.uuid), ImagePath(imageDir, r2.uuid);
    assert [r1][..0] == [];
    assert Group(imageDir, [r1]) == AddRow(Group(imageDir, []), imageDir, r1);
    AddRowNew(NoDocuments, imageDir, r1);
    assert [] + [r1.title] == [r1.title];
    var d1 := Documents([r1.title], map[r1.title := [p1]]);
    assert Group(imageDir, [r1]) == d1;
    assert [r1, r2][..1] == [r1];
    assert Group(imageDir, [r1, r2]) == AddRow(d1, imageDir, r2);
    AddRowNew(d1, imageDir, r2);
  }

  /** Each row adds one path to the total. */
  lemma AddRowTotal(d: Documents, imageDir: string, row: Row)
    requires Valid(d)
    ensures TotalPages(AddRow(d, imageDir, row).order, AddRow(d, imageDir, row).pages) == TotalPages(d.order, d.pages) + 1
  {
    var path := ImagePath(imageDir, row.uuid);
    if row.title in d.pages {
      TotalPagesUpdate(d.order, d.pages, row.title, d.pages[row.title] + [path]);
    } else {
      AddRowNew(d, imageDir, row);
      TotalPagesFrame(d.order, d.pages, row.title, [path]);
      TotalPagesSnoc(d.order, d.pages[row.title := [path]], row.title);
    }
  }

  /** No row is dropped or duplicated: the lists hold as many paths as there are rows. */
  lemma {:induction false} GroupTotal(imageDir: string, rows: seq<Row>)
    ensures TotalPages(Group(imageDir, rows).order, Group(imageDir, rows).pages) == |rows|
    decreases |rows|
  {
    if rows != [] {
      var prefix := rows[..|rows| - 1];
      GroupTotal(imageDir, prefix);
      AddRowTotal(Group(imageDir, prefix), imageDir, rows[|rows| - 1]);
    }
  }
}
