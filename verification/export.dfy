/**
 The export loop: one PDF per document, in the dictionary's insertion
 order, written to the sanitised title with `open(name, "wb")`. Writing
 truncates, so a later document whose name collides with an earlier one
 replaces the earlier file. `img2pdf.convert` is not modelled: a write is
 the file name together with the ordered image paths handed to it.
 */
module Export {
  import opened Paths
  import opened Sanitize
  import opened Grouping

  /** One iteration of the export loop: the file opened and the images converted into it. */
  datatype PdfWrite = PdfWrite(file: string, images: seq<Path>)

  /** The writes for the titles of `order`, one per title, in that order. */
  function Emit(order: seq<string>, pages: map<string, seq<Path>>): (ws: seq<PdfWrite>)
    requires forall t :: t in order ==> t in pages
    ensures |ws| == |order|
    ensures forall i :: 0 <= i < |order| ==> ws[i] == PdfWrite(PdfName(order[i]), pages[order[i]])
  {
    if order == [] then []
    else [PdfWrite(PdfName(order[0]), pages[order[0]])] + Emit(order[1..], pages)
  }

  /** All writes of one run over the query result `rows`. */
  function Writes(imageDir: string, rows: seq<Row>): (ws: seq<PdfWrite>)
    ensures |ws| == |Group(imageDir, rows).order|
    ensures forall i :: 0 <= i < |ws| ==>
              ws[i].file == PdfName(Group(imageDir, rows).order[i]) && |ws[i].images| > 0
  {
    var d := Group(imageDir, rows);
    Emit(d.order, d.pages)
  }

  /** Number of page images over all writes. */
  function ImageCount(ws: seq<PdfWrite>): nat
  {
    if ws == [] then 0 else |ws[0].images| + ImageCount(ws[1..])
  }

  /** Write `i` is the last one to its file name. */
  predicate LastWrite(ws: seq<PdfWrite>, i: int)
    requires 0 <= i < |ws|
  {
    forall j :: i < j < |ws| ==> ws[j].file != ws[i].file
  }

  /** The files the writes leave, in order, each `open(name, "wb")` truncating its file first.
      Files the directory held before are not part of the value. */
  function FinalFiles(ws: seq<PdfWrite>): (files: map<string, seq<Path>>)
    ensures forall f :: f in files ==> Opened(ws, f)
    decreases |ws|
  {
    if ws == [] then map[]
    else
      var prefix := ws[..|ws| - 1];
      assert forall i :: 0 <= i < |prefix| ==> prefix[i] == ws[i];
      FinalFiles(prefix)[ws[|ws| - 1].file := ws[|ws| - 1].images]
  }

  /** Some write opened the file named `f`. */
  predicate Opened(ws: seq<PdfWrite>, f: string)
  {
    exists i :: 0 <= i < |ws| && ws[i].file == f
  }

  /** A file exists afterwards exactly when some write opened it. */
  lemma {:induction false} FinalFilesOpened(ws: seq<PdfWrite>)
    ensures forall f :: f in FinalFiles(ws) <==> Opened(ws, f)
    decreases |ws|
  {
    if ws != [] {
      var n := |ws| - 1;
      var prefix := ws[..n];
      FinalFilesOpened(prefix);
      forall f ensures f in FinalFiles(ws) <==> Opened(ws, f) {
        if Opened(prefix, f) {
          var i :| 0 <= i < |prefix| && prefix[i].file == f;
          assert ws[i] == prefix[i];
        }
        if f != ws[n].file && Opened(ws, f) {
          var i :| 0 <= i < |ws| && ws[i].file == f;
          assert prefix[i] == ws[i];
        }
      }
    }
  }

  /** Each file holds the images of the last write to its name: a later write replaces an earlier one. */
  lemma {:induction false} FinalFilesLastWriteWins(ws: seq<PdfWrite>, i: nat)
    requires i < |ws|
    requires LastWrite(ws, i)
    ensures ws[i].file in FinalFiles(ws)
    ensures FinalFiles(ws)[ws[i].file] == ws[i].images
    decreases |ws|
  {
    var n := |ws| - 1;
    var prefix, last := ws[..n], ws[n];
    assert FinalFiles(ws) == FinalFiles(prefix)[last.file := last.images];
    if i < n {
      assert last.file != ws[i].file;
      assert prefix[i] == ws[i];
      assert LastWrite(prefix, i) by {
        forall j | i < j < |prefix| ensures prefix[j].file != prefix[i].file {
          assert prefix[j] == ws[j];
        }
      }
      FinalFilesLastWriteWins(prefix, i);
    }
  }

  /** The index of the last write to the file of write `i`. */
  function LastWriteTo(ws: seq<PdfWrite>, i: nat): (k: nat)
    requires i < |ws|
    ensures i <= k < |ws| && ws[k].file == ws[i].file && LastWrite(ws, k)
    decreases |ws| - i
  {
    if exists j :: i < j < |ws| && ws[j].file == ws[i].file then
      var j :| i < j < |ws| && ws[j].file == ws[i].file;
      LastWriteTo(ws, j)
    else i
  }

  /** When titles collide, the file holds the pages of the colliding title whose first row
      comes last: the last write to a name belongs to the latest title in first-row order. */
  lemma LastWriteLatestTitle(rows: seq<Row>, order: seq<string>, ws: seq<PdfWrite>, k: nat)
    requires |ws| == |order|
    requires forall i :: 0 <= i < |ws| ==> ws[i].file == PdfName(order[i])
    requires forall t :: t in order <==> HasTitle(rows, t)
    requires InFirstRowOrder(rows, order)
    requires k < |ws| && LastWrite(ws, k)
    ensures HasTitle(rows, order[k])
    ensures forall u :: HasTitle(rows, u) && PdfName(u) == ws[k].file ==> FirstIndex(rows, u) <= FirstIndex(rows, order[k])
  {
  }

  // ---------------------------------------------------------------------------
  // Properties of the export loop

  /** Document `i` is written to the sanitised name of the `i`-th title of the iteration order
      (first-appearance order, see `GroupOrder`), with exactly that title's page images in row
      order, and never with an empty image list. */
  lemma WritesSpec(imageDir: string, rows: seq<Row>)
    ensures |Writes(imageDir, rows)| == |Group(imageDir, rows).order|
    ensures forall i :: 0 <= i < |Writes(imageDir, rows)| ==>
              && Writes(imageDir, rows)[i].file == PdfName(Group(imageDir, rows).order[i])
              && Writes(imageDir, rows)[i].images == PagesOf(imageDir, rows, Group(imageDir, rows).order[i])
              && |Writes(imageDir, rows)[i].images| > 0
  {
    var d := Group(imageDir, rows);
    var ws := Writes(imageDir, rows);
    GroupPages(imageDir, rows);
    forall i | 0 <= i < |ws|
      ensures ws[i].file == PdfName(d.order[i]) && ws[i].images == PagesOf(imageDir, rows, d.order[i])
    {
      assert ws[i].images == d.pages[d.order[i]] == PagesIn(d, d.order[i]);
    }
  }

  lemma {:induction false} EmitImageCount(order: seq<string>, pages: map<string, seq<Path>>)
    requires forall t :: t in order ==> t in pages
    ensures ImageCount(Emit(order, pages)) == TotalPages(order, pages)
    decreases |order|
  {
    if order != [] {
      EmitImageCount(order[1..], pages);
      assert Emit(order, pages)[1..] == Emit(order[1..], pages);
    }
  }

  /** Every row's image is handed to exactly one write: the writes carry as many images as there are rows. */
  lemma WritesImageCount(imageDir: string, rows: seq<Row>)
    ensures ImageCount(Writes(imageDir, rows)) == |rows|
  {
    var d := Group(imageDir, rows);
    EmitImageCount(d.order, d.pages);
    GroupTotal(imageDir, rows);
  }

  /** The two colliding documents are both written to `A_B.pdf`, in row order. */
  lemma CollisionWrites(imageDir: string)
    ensures Writes(imageDir, [Row("A/B", "u1"), Row("A:B", "u2")])
            == [PdfWrite("A_B.pdf", [ImagePath(imageDir, "u1")]), PdfWrite("A_B.pdf", [ImagePath(imageDir, "u2")])]
  {
    GroupTwoTitles(imageDir, Row("A/B", "u1"), Row("A:B", "u2"));
    PdfNameNotInjective();
  }

  /** Of two writes to one name, only the second survives. */
  lemma SecondWriteWins(w1: PdfWrite, w2: PdfWrite)
    requires w1.file == w2.file
    ensures FinalFiles([w1, w2]) == map[w2.file := w2.images]
  {
  }

  /** Two titles whose names collide: the page of `A/B` ends up in no file, because `A:B`,
      written after it, truncates `A_B.pdf`. */
  lemma CollisionLosesDocument(imageDir: string)
    ensures FinalFiles(Writes(imageDir, [Row("A/B", "u1"), Row("A:B", "u2")]))
            == map["A_B.pdf" := [ImagePath(imageDir, "u2")]]
  {
    CollisionWrites(imageDir);
    SecondWriteWins(PdfWrite("A_B.pdf", [ImagePath(imageDir, "u1")]), PdfWrite("A_B.pdf", [ImagePath(imageDir, "u2")]));
  }
}
