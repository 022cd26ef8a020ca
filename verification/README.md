# geniusscan_data2pdfs, modelled in Dafny

The script `geniusscan_data2pdfs.py` exports the scans in a Genius Scan
database as PDF files. It queries the pages as `(document title, image uuid)`
rows, ordered by document and page order. It folds those rows into a
dictionary that maps each title to the ordered list of its image paths,
`join(image_dir, uuid + ".jpg")`. Then, in the dictionary's insertion order,
it writes one PDF per title. The file name is the title with each of
`/ \ : * ? " < > |` replaced by `_`, followed by `.pdf`.

The model has five modules:

- `Paths` (`paths.dfy`): a path is the pair `Join(dir, name)` that `os.path.join` received.
- `Sanitize` (`sanitize.dfy`): the character-wise substitution and the PDF file name.
- `Grouping` (`grouping.dfy`): the group-by fold over the rows. It also holds reference
  definitions stated directly on the rows: `PagesOf` (the paths of a title's rows, in row
  order), `HasTitle` and `FirstIndex`.
- `Export` (`export.dfy`): the writes of the export loop, and the files those writes leave
  once each `open(name, "wb")` has truncated its file.
- `Script` (`script.dfy`): `main`'s checks on the database file and the image directory,
  its console lines, and the two-argument command line.

The filesystem is a snapshot value. The database's query result is the input row sequence.

The script reads the already warped image of each page (`page.warpedImage_id`) and writes
`<sanitised title>.pdf` for each document in a single pass.

## Model

| member | source | states |
|---|---|---|
| Paths.ImagePath | geniusscan_data2pdfs.py:31 | The path of a row's image names the file `<uuid>.jpg` inside the image directory |
| Paths.ImagePathInjective | geniusscan_data2pdfs.py:31 | Within one image directory, two `Join` pairs are equal exactly when their uuids are equal. This is a fact about the pair abstraction, not about `os.path.join` |
| Sanitize.Substitute | geniusscan_data2pdfs.py:35 | The substitution keeps the length; each forbidden character becomes `_`; every other character stays at its position; the result holds no forbidden character |
| Sanitize.PdfName | geniusscan_data2pdfs.py:35 | The file name is 4 characters longer than the title and ends in `.pdf`; its prefix holds none of the nine characters; non-forbidden title characters are kept at their positions and forbidden ones become `_` |
| Sanitize.SubstituteFixpoint | geniusscan_data2pdfs.py:35 | Substitution leaves a title unchanged if and only if the title holds no forbidden character |
| Sanitize.SubstituteIdempotent | geniusscan_data2pdfs.py:35 | Sanitising twice equals sanitising once, both for the prefix and for the full PDF name |
| Sanitize.PdfNameCollision | geniusscan_data2pdfs.py:35 | Two titles get the same file name if and only if they have equal length and, at each position, agree or both hold a character that becomes `_` |
| Sanitize.PdfNameNotInjective | geniusscan_data2pdfs.py:35 | `A/B`, `A:B` and `A_B` are distinct titles that all get the name `A_B.pdf` |
| Sanitize.PdfNameExample | geniusscan_data2pdfs.py:35 | `A/B:C"D` gets the name `A_B_C_D.pdf` |
| Grouping.AddRow | geniusscan_data2pdfs.py:28-31 | One row extends only its own title's list, by exactly its image path. Every other title's list and key are unchanged. A new title is appended to the insertion order. The invariant is preserved |
| Grouping.Group | geniusscan_data2pdfs.py:20-31 | After the loop, the insertion order lists each key exactly once and no title's list is empty |
| Grouping.GroupPages | geniusscan_data2pdfs.py:26-31 | For every title, its list equals the paths of the rows carrying that title, in input order (empty when there is no such row) |
| Grouping.GroupKeys | geniusscan_data2pdfs.py:28-31 | A title is a key if and only if some row carries it, and every key's list is nonempty |
| Grouping.GroupOrder | geniusscan_data2pdfs.py:28-33 | The iteration order holds each title exactly once, holds exactly the titles of the rows, and ranks titles by the index of their first row |
| Grouping.AddRowNew | geniusscan_data2pdfs.py:28-31 | A row whose title is not yet a key appends the title to the order and gives it a list holding only the row's image path |
| Grouping.AddRowTotal | geniusscan_data2pdfs.py:28-31 | Each row adds exactly one path to the total over all lists |
| Grouping.GroupTwoTitles | geniusscan_data2pdfs.py:20-31 | Two rows with different titles make two one-page documents, in row order |
| Grouping.GroupTotal | geniusscan_data2pdfs.py:22-31 | The group lengths add up to the number of rows, so no row is dropped or duplicated |
| Export.Emit | geniusscan_data2pdfs.py:33-35 | One write per title of the iteration order, in that order. The i-th write goes to the sanitised name of the i-th title and carries that title's list |
| Export.Writes | geniusscan_data2pdfs.py:33-39 | A run makes one write per title of the grouped rows. The i-th write goes to the sanitised name of the i-th title, and no write gets an empty image list |
| Export.FinalFiles | geniusscan_data2pdfs.py:38 | Every file the writes leave was opened by some write |
| Export.LastWriteLatestTitle | geniusscan_data2pdfs.py:33-38 | Take the last write to a file name. No title with that sanitised name has a later first row than the title of that write |
| Export.WritesSpec | geniusscan_data2pdfs.py:33-39 | There is one write per title of the iteration order. The i-th write goes to the sanitised name of the i-th title and carries exactly that title's image paths in row order, never an empty list |
| Export.WritesImageCount | geniusscan_data2pdfs.py:22-39 | The images handed to all writes add up to the number of rows |
| Export.FinalFilesOpened | geniusscan_data2pdfs.py:38 | The writes leave a file under a name if and only if some write opened that name |
| Export.FinalFilesLastWriteWins | geniusscan_data2pdfs.py:38-39 | A file holds the images of the last write to its name |
| Export.SecondWriteWins | geniusscan_data2pdfs.py:38-39 | Of two writes to one name, only the second one's images remain |
| Export.CollisionWrites | geniusscan_data2pdfs.py:28-39 | Rows for `A/B` and then `A:B` produce two writes, both to `A_B.pdf`, in row order |
| Export.CollisionLosesDocument | geniusscan_data2pdfs.py:35-39 | With rows for `A/B` and then `A:B`, the only file left is `A_B.pdf`, and it holds the `A:B` page only. The `A/B` page ends up in no file |
| Script.Progress | geniusscan_data2pdfs.py:37-40 | The export loop prints exactly two lines per document |
| Script.ProgressLines | geniusscan_data2pdfs.py:37-40 | For document `i`, line `2i` is `Writing <name>` and line `2i+1` is `done` |
| Script.Main | geniusscan_data2pdfs.py:9-40 | A database path that is not a file reports it, and so does an image path that is not a directory. Either failure writes no PDF and prints one line. Otherwise the run exports the grouped writes |
| Script.Cli | geniusscan_data2pdfs.py:43-48 | With fewer than two arguments after the script name, the run prints only the usage message and writes no PDF. Otherwise it prints and writes what `main` does on the first two arguments |
| Script.CliWritesPdfs | geniusscan_data2pdfs.py:9-48 | A command-line run writes some PDF if and only if it has two arguments, the first is a database file, the second is an image directory, and the page query returns a row |
| Script.MainWritesEveryTitle | geniusscan_data2pdfs.py:9-39 | On a successful run, a file is written under the sanitised name of every title of the rows |
| Script.MainFileContents | geniusscan_data2pdfs.py:9-39 | On a successful run, every file written holds the page images, in row order, of a title whose sanitised name it bears. When several titles share that name, it is the one whose first row comes last |

## Left out

- The SQLite connection and the page query (lines 17-27): the query result is an input row sequence. The model assumes the database has already ordered it by document and page order.
- `os.path.join`'s platform rules: a path is the pair it was given (`Paths.Join`).
- `img2pdf.convert` and the bytes written: a write is the file name plus the ordered list of image paths handed to the converter.
- Failures raised inside the libraries, and the exception they would end the run with: an unreadable database, a missing table, an image that cannot be read, a file that cannot be opened.
- `print` itself: `Script.Progress` and `Outcome.Console` give the printed lines as values. `print("Writing", doc)` is modelled as `"Writing " + doc`, using `print`'s default separator.
- The default arguments of `main` (`database.db` and an empty directory): the command line always passes both.
- The paths are compared as given. Whether two different strings name the same file (case folding, relative paths) is not modelled.
- Export.FinalFiles — covers only the files one run writes. PDFs already in the working directory are not modelled, for example one from an earlier run whose title has since gone; such a file is still there afterwards. `Outcome.Pdfs` and `Invocation.Pdfs` are likewise the files the call writes.
- Grouping.Row — both columns are strings. The query can return NULL for `document.title` or `images.uuid`. A NULL uuid makes line 31 raise `TypeError` before any PDF is written. A NULL title makes line 35 raise partway through the export, after the earlier documents' PDFs are written, so `Script.MainWritesEveryTitle` does not cover such a database.
- The iteration order at line 33, and so which colliding title's file survives, relies on `dict` keeping insertion order. CPython does this from 3.6, and the language guarantees it from 3.7. Older interpreters are not modelled.
- Paths.ImagePathInjective — holds for the `Join` pair, not for `os.path.join`. For example, `os.path.join("/x", "/x/y.jpg")` equals `os.path.join("/x", "y.jpg")`.
