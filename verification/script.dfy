/**
 The entry points of the export script: `main`, which checks the database
 file and the image directory before exporting, and the command line,
 which needs two arguments. The filesystem is a snapshot passed in, and
 the rows the page query returns from the database are a parameter.
 */
module Script {
  import opened Paths
  import opened Sanitize
  import opened Grouping
  import opened Export

  /** What `os.path.exists`, `isfile` and `isdir` see. */
  datatype FileSystem = FileSystem(files: set<string>, dirs: set<string>)
  {
    predicate Exists(p: string) { p in files || p in dirs }
    predicate IsFile(p: string) { p in files }
    predicate IsDir(p: string) { p in dirs }
  }

  /** How a call of `main` ends. */
  datatype Outcome =
    | DatabaseNotFound(dbPath: string)
    | ImageDirNotFound(imageDir: string)
    | Exported(writes: seq<PdfWrite>)
  {
    /** The PDF files the call writes, by name, with the images each one holds. */
    function Pdfs(): map<string, seq<Path>>
    {
      if Exported? then FinalFiles(writes) else map[]
    }

    /** The lines printed to the console. */
    function Console(): seq<string>
    {
      match this
      case DatabaseNotFound(p) => ["Database file not found: " + p]
      case ImageDirNotFound(p) => ["Image directory not found: " + p]
      case Exported(ws) => Progress(ws)
    }
  }

  /** The lines printed by the export loop. */
  function Progress(ws: seq<PdfWrite>): (lines: seq<string>)
    ensures |lines| == 2 * |ws|
  {
    if ws == [] then []
    else ["Writing " + ws[0].file, "done"] + Progress(ws[1..])
  }

  /** Each document prints two lines: "Writing <name>" before its write and "done" after it. */
  lemma {:induction false} ProgressLines(ws: seq<PdfWrite>)
    ensures forall i :: 0 <= i < |ws| ==>
              Progress(ws)[2 * i] == "Writing " + ws[i].file && Progress(ws)[2 * i + 1] == "done"
  {
    if ws != [] {
      ProgressLines(ws[1..]);
      forall i | 1 <= i < |ws|
        ensures Progress(ws)[2 * i] == "Writing " + ws[i].file && Progress(ws)[2 * i + 1] == "done"
      {
        assert ws[1..][i - 1] == ws[i];
        assert 2 * i == 2 + 2 * (i - 1);
      }
    }
  }

  /** `main(db_path, image_dir)` over the page rows the database returns. */
  function Main(dbPath: string, imageDir: string, fs: FileSystem, rows: seq<Row>): (o: Outcome)
    ensures o.DatabaseNotFound? <==> !fs.IsFile(dbPath)
    ensures o.ImageDirNotFound? <==> fs.IsFile(dbPath) && !fs.IsDir(imageDir)
    ensures o.Exported? <==> fs.IsFile(dbPath) && fs.IsDir(imageDir)
    ensures o.Exported? ==> o.writes == Writes(imageDir, rows)
    ensures !o.Exported? ==> o.Pdfs() == map[] && |o.Console()| == 1
  {
    if !fs.Exists(dbPath) || !fs.IsFile(dbPath) then DatabaseNotFound(dbPath)
    else if !fs.Exists(imageDir) || !fs.IsDir(imageDir) then ImageDirNotFound(imageDir)
    else Exported(Writes(imageDir, rows))
  }

  const UsageMessage: string := "Input arguments must be <path_to_database.db> <path_to_images_directory>"

  /** A run of the script from the command line; `argv[0]` is the script itself. */
  datatype Invocation = Usage | Ran(outcome: Outcome)
  {
    /** The PDF files the run writes. */
    function Pdfs(): map<string, seq<Path>>
    {
      if Usage? then map[] else outcome.Pdfs()
    }

    /** The lines the run prints. */
    function Console(): seq<string>
    {
      if Usage? then [UsageMessage] else outcome.Console()
    }
  }

  function Cli(argv: seq<string>, fs: FileSystem, rows: seq<Row>): (r: Invocation)
    ensures |argv| < 3 ==> r.Console() == [UsageMessage] && r.Pdfs() == map[]
    ensures |argv| >= 3 ==> r.Console() == Main(argv[1], argv[2], fs, rows).Console()
                            && r.Pdfs() == Main(argv[1], argv[2], fs, rows).Pdfs()
  {
    if |argv| < 3 then Usage else Ran(Main(argv[1], argv[2], fs, rows))
  }

  /** A command-line run writes some PDF exactly when it got two arguments, the first names a
      database file, the second an image directory, and the page query returned a row. */
  lemma CliWritesPdfs(argv: seq<string>, fs: FileSystem, rows: seq<Row>)
    ensures Cli(argv, fs, rows).Pdfs() != map[]
            <==> |argv| >= 3 && fs.IsFile(argv[1]) && fs.IsDir(argv[2]) && rows != []
  {
    if |argv| >= 3 && fs.IsFile(argv[1]) && fs.IsDir(argv[2]) {
      if rows != [] {
        assert HasTitle(rows, rows[0].title);
        MainWritesEveryTitle(argv[1], argv[2], fs, rows, rows[0].title);
      } else {
        assert Writes(argv[2], rows) == [];
      }
    }
  }

  /** A successful run writes a file for every title of the rows, named after the title,
      and at least one file whenever there is at least one row. */
  lemma MainWritesEveryTitle(dbPath: string, imageDir: string, fs: FileSystem, rows: seq<Row>, title: string)
    requires fs.IsFile(dbPath) && fs.IsDir(imageDir)
    requires HasTitle(rows, title)
    ensures PdfName(title) in Main(dbPath, imageDir, fs, rows).Pdfs()
  {
    var ws := Writes(imageDir, rows);
    WritesSpec(imageDir, rows);
    GroupOrder(imageDir, rows);
    var order := Group(imageDir, rows).order;
    var i :| 0 <= i < |order| && order[i] == title;
    FinalFilesOpened(ws);
    assert ws[i].file == PdfName(title);
  }

  /** Every file a successful run writes holds the page images, in row order, of a title whose
      name it bears; when several titles share the name, of the one whose first row comes last. */
  lemma MainFileContents(dbPath: string, imageDir: string, fs: FileSystem, rows: seq<Row>, f: string)
    requires fs.IsFile(dbPath) && fs.IsDir(imageDir)
    requires f in Main(dbPath, imageDir, fs, rows).Pdfs()
    ensures exists t :: HasTitle(rows, t) && PdfName(t) == f
                        && Main(dbPath, imageDir, fs, rows).Pdfs()[f] == PagesOf(imageDir, rows, t)
                        && forall u :: HasTitle(rows, u) && PdfName(u) == f ==> FirstIndex(rows, u) <= FirstIndex(rows, t)
  {
    var ws := Writes(imageDir, rows);
    var order := Group(imageDir, rows).order;
    WritesSpec(imageDir, rows);
    GroupOrder(imageDir, rows);
    FinalFilesOpened(ws);
    var i :| 0 <= i < |ws| && ws[i].file == f;
    var k := LastWriteTo(ws, i);
    FinalFilesLastWriteWins(ws, k);
    LastWriteLatestTitle(rows, order, ws, k);
  }
}
