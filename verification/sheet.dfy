/**
  The derush sheet itself (`main` in derush_sheet.py): a fixed header row,
  then one row per `.MXF` regular file of the video directory, in listing
  order, written until the listing is exhausted or an error escapes
  `get_video_info`.
 */
module DerushSheet {
  import opened Base
  import opened Text
  import opened VideoInfo

  /** The eight column titles written before any file is examined. */
  const Header: seq<string> :=
    ["FICHIER", "TC IN", "TC OUT", "DURÉE", "CONTENU IMAGE", "CONTENU SON", "OBSERVATIONS", "CHOIX"]

  /** The case-sensitive file-name suffix of the files that get a row. */
  const MxfSuffix: string := ".MXF"

  /**
    One name returned by the directory listing: whether it is a regular
    file, and what probing it yields.
   */
  datatype Entry = Entry(name: string, regularFile: bool, probe: Probe)

  /** How the run ended: normally, or with an error escaping for the named file. */
  datatype Completion = Completed | Aborted(file: string, cause: Fatal)

  /**
    Rows of the CSV file and how the run ended: the data rows the loop
    writes, or the whole table once the header is put in front of them.
   */
  datatype Table = Table(rows: seq<seq<string>>, completion: Completion)

  /** The row of one file: name, tc-in, tc-out, duration and three empty notes. */
  function DataRow(name: string, info: Info): seq<string> {
    [name, info.tcIn, info.tcOut, info.duration, "", "", ""]
  }

  /** The listing entries whose names end with `.MXF`, in listing order. */
  function MxfFiles(listing: seq<Entry>): (r: seq<Entry>)
    ensures |r| <= |listing|
    ensures forall k :: 0 <= k < |r| ==> EndsWith(r[k].name, MxfSuffix) && r[k] in listing
    ensures forall e :: e in listing && EndsWith(e.name, MxfSuffix) ==> e in r
  {
    if |listing| == 0 then []
    else
      var rest := MxfFiles(listing[1..]);
      assert forall e :: e in listing[1..] ==> e in listing;
      assert forall e :: e in listing ==> e == listing[0] || e in listing[1..];
      if EndsWith(listing[0].name, MxfSuffix) then [listing[0]] + rest else rest
  }

  /** Whether the driver writes a row for this entry. */
  predicate Selected(e: Entry) {
    EndsWith(e.name, MxfSuffix) && e.regularFile
  }

  /** The entries the driver writes rows for, in listing order. */
  function SelectedFiles(listing: seq<Entry>): seq<Entry> {
    if |listing| == 0 then []
    else if Selected(listing[0]) then [listing[0]] + SelectedFiles(listing[1..])
    else SelectedFiles(listing[1..])
  }

  /** The regular files among some entries, in order. */
  function RegularFiles(files: seq<Entry>): seq<Entry> {
    if |files| == 0 then []
    else if files[0].regularFile then [files[0]] + RegularFiles(files[1..])
    else RegularFiles(files[1..])
  }

  /**
    The body of the loop over `.MXF` names: skip non-files, write the row of
    each file, stop at the first error that escapes `get_video_info`.
   */
  function Process(files: seq<Entry>): Table {
    if |files| == 0 then Table([], Completed)
    else
      var e := files[0];
      if !e.regularFile then Process(files[1..])
      else
        match GetVideoInfo(e.probe)
        case Err(cause) => Table([], Aborted(e.name, cause))
        case Ok(info) =>
          var rest := Process(files[1..]);
          Table([DataRow(e.name, info)] + rest.rows, rest.completion)
  }

  /** The table `main` leaves behind: the header, then what the loop wrote. */
  function Derush(listing: seq<Entry>): Table {
    var written := Process(MxfFiles(listing));
    Table([Header] + written.rows, written.completion)
  }

  /**
    `rows` and `completion` are what processing `files` in order produces:
    row k belongs to `files[k]`, all rows precede the first failing file,
    and the run completes exactly when every file got its row.
   */
  ghost predicate WrittenInOrder(w: Table, files: seq<Entry>) {
    && |w.rows| <= |files|
    && (forall k :: 0 <= k < |w.rows| ==>
          GetVideoInfo(files[k].probe).Ok?
          && w.rows[k] == DataRow(files[k].name, GetVideoInfo(files[k].probe).value))
    && (w.completion.Completed? <==> |w.rows| == |files|)
    && (w.completion.Aborted? ==>
          && w.completion.file == files[|w.rows|].name
          && GetVideoInfo(files[|w.rows|].probe) == Err(w.completion.cause))
  }

  /** The loop writes, in order, one row per regular file up to the first failure. */
  lemma {:induction false} ProcessWritesRegularFiles(files: seq<Entry>)
    ensures WrittenInOrder(Process(files), RegularFiles(files))
  {
    if |files| > 0 {
      ProcessWritesRegularFiles(files[1..]);
      var e := files[0];
      if e.regularFile {
        var rest := Process(files[1..]);
        var regular := RegularFiles(files);
        assert regular == [e] + RegularFiles(files[1..]);
        match GetVideoInfo(e.probe)
        case Err(cause) =>
        case Ok(info) =>
          var w := Process(files);
          assert w.rows == [DataRow(e.name, info)] + rest.rows;
          forall k | 0 <= k < |w.rows|
            ensures GetVideoInfo(regular[k].probe).Ok?
            ensures w.rows[k] == DataRow(regular[k].name, GetVideoInfo(regular[k].probe).value)
          {
            if k > 0 {
              assert w.rows[k] == rest.rows[k - 1];
              assert regular[k] == RegularFiles(files[1..])[k - 1];
            }
          }
      }
    }
  }

  /** Filtering on the suffix, then on being a regular file, selects exactly the selected entries. */
  lemma {:induction false} RegularMxfFiles(listing: seq<Entry>)
    ensures RegularFiles(MxfFiles(listing)) == SelectedFiles(listing)
  {
    if |listing| > 0 {
      RegularMxfFiles(listing[1..]);
      var rest := MxfFiles(listing[1..]);
      if EndsWith(listing[0].name, MxfSuffix) {
        assert MxfFiles(listing) == [listing[0]] + rest;
        assert ([listing[0]] + rest)[1..] == rest;
      }
    }
  }

  /**
    The table always starts with the header; the rows after it are those
    of the selected files, in listing order, up to the first file whose
    metadata raises; the run completes exactly when every selected file got
    its row.
   */
  lemma SheetContents(listing: seq<Entry>)
    ensures var sheet := Derush(listing);
      && |sheet.rows| >= 1
      && sheet.rows[0] == Header
      && WrittenInOrder(Table(sheet.rows[1..], sheet.completion), SelectedFiles(listing))
  {
    ProcessWritesRegularFiles(MxfFiles(listing));
    RegularMxfFiles(listing);
    var written := Process(MxfFiles(listing));
    assert Derush(listing).rows[1..] == written.rows;
  }

  /**
    Every data row has seven fields (one fewer than the header): a `.MXF`
    regular-file name, the three metadata strings and three empty notes.
   */
  lemma DataRowShape(listing: seq<Entry>)
    ensures var rows := Derush(listing).rows;
      forall k :: 1 <= k < |rows| ==>
        && |rows[k]| == 7 == |Header| - 1
        && EndsWith(rows[k][0], MxfSuffix)
        && rows[k][4..] == ["", "", ""]
  {
    var written := Process(MxfFiles(listing));
    ProcessRowShape(MxfFiles(listing));
    var rows := Derush(listing).rows;
    assert rows == [Header] + written.rows;
    forall k | 1 <= k < |rows|
      ensures |rows[k]| == 7 && EndsWith(rows[k][0], MxfSuffix) && rows[k][4..] == ["", "", ""]
    {
      assert rows[k] == written.rows[k - 1];
    }
  }

  /** A row of seven fields whose name ends with `.MXF` and whose notes are empty. */
  predicate ShapedRow(row: seq<string>) {
    |row| == 7 && EndsWith(row[0], MxfSuffix) && row[4..] == ["", "", ""]
  }

  /** Processing `.MXF` entries writes only seven-field rows named after them. */
  lemma {:induction false} ProcessRowShape(files: seq<Entry>)
    requires forall k :: 0 <= k < |files| ==> EndsWith(files[k].name, MxfSuffix)
    ensures forall k :: 0 <= k < |Process(files).rows| ==> ShapedRow(Process(files).rows[k])
  {
    if |files| > 0 {
      var tail := files[1..];
      assert forall k :: 0 <= k < |tail| ==> tail[k] == files[k + 1];
      ProcessRowShape(tail);
      var e := files[0];
      if e.regularFile {
        match GetVideoInfo(e.probe)
        case Err(_) =>
        case Ok(info) =>
          var rest := Process(tail);
          var rows := [DataRow(e.name, info)] + rest.rows;
          assert Process(files).rows == rows;
          assert ShapedRow(rows[0]);
          forall k | 1 <= k < |rows|
            ensures ShapedRow(rows[k])
          {
            assert rows[k] == rest.rows[k - 1];
          }
      }
    }
  }

  /** Each selected entry is an `.MXF` regular file of the listing. */
  lemma {:induction false} SelectedFilesAreSelected(listing: seq<Entry>, k: int)
    requires 0 <= k < |SelectedFiles(listing)|
    ensures Selected(SelectedFiles(listing)[k])
    ensures SelectedFiles(listing)[k] in listing
  {
    if Selected(listing[0]) && k == 0 {
    } else if Selected(listing[0]) {
      SelectedFilesAreSelected(listing[1..], k - 1);
    } else {
      SelectedFilesAreSelected(listing[1..], k);
    }
  }

  /** Every `.MXF` regular file of the listing is among the selected entries. */
  lemma {:induction false} SelectedFilesKeepAll(listing: seq<Entry>, e: Entry)
    requires e in listing && Selected(e)
    ensures e in SelectedFiles(listing)
  {
    if e != listing[0] {
      assert e in listing[1..];
      SelectedFilesKeepAll(listing[1..], e);
    }
  }

  /** A listing with no `.MXF` regular file yields the header alone, and the run completes. */
  lemma NothingSelected(listing: seq<Entry>)
    requires forall k :: 0 <= k < |listing| ==> !Selected(listing[k])
    ensures Derush(listing) == Table([Header], Completed)
  {
    assert SelectedFiles(listing) == [] by {
      NoneSelected(listing);
    }
    SheetContents(listing);
    var rows := Derush(listing).rows;
    assert rows == [Header] + rows[1..];
  }

  /** Filtering a listing without selected entries leaves nothing. */
  lemma {:induction false} NoneSelected(listing: seq<Entry>)
    requires forall k :: 0 <= k < |listing| ==> !Selected(listing[k])
    ensures SelectedFiles(listing) == []
  {
    if |listing| > 0 {
      NoneSelected(listing[1..]);
    }
  }

  /** An empty directory yields the header alone. */
  lemma EmptyDirectory()
    ensures Derush([]) == Table([Header], Completed)
  {
  }

  /** The suffix test is case-sensitive: a lower-case `.mxf` file gets no row. */
  lemma LowerCaseSuffixSkipped(probe: Probe)
    ensures Derush([Entry("A001.mxf", true, probe)]) == Table([Header], Completed)
  {
    assert !EndsWith("A001.mxf", MxfSuffix);
    NothingSelected([Entry("A001.mxf", true, probe)]);
  }

  /** One step of `Process`, taken at position `i` of `files`. */
  lemma ProcessFrom(files: seq<Entry>, i: int)
    requires 0 <= i < |files|
    ensures var e, rest := files[i], Process(files[i + 1..]);
      Process(files[i..])
      == if !e.regularFile then rest
         else match GetVideoInfo(e.probe)
           case Err(cause) => Table([], Aborted(e.name, cause))
           case Ok(info) => Table([DataRow(e.name, info)] + rest.rows, rest.completion)
  {
    assert files[i..][0] == files[i] && files[i..][1..] == files[i + 1..];
  }

  /**
    The loop of `main` over the `.MXF` names, in order: skips non-files,
    appends one row per file, and stops when an error escapes
    `get_video_info`.
   */
  method WriteRows(mxf: seq<Entry>) returns (w: Table)
    ensures w == Process(mxf)
    ensures WrittenInOrder(w, RegularFiles(mxf))
  {
    var rows := [];
    var i := 0;
    assert mxf[i..] == mxf;
    while i < |mxf|
      invariant 0 <= i <= |mxf|
      invariant Process(mxf).rows == rows + Process(mxf[i..]).rows
      invariant Process(mxf).completion == Process(mxf[i..]).completion
    {
      var e := mxf[i];
      ProcessFrom(mxf, i);
      if e.regularFile {
        var outcome := GetVideoInfo(e.probe);
        if outcome.Err? {
          ProcessWritesRegularFiles(mxf);
          return Table(rows, Aborted(e.name, outcome.error));
        }
        rows := rows + [DataRow(e.name, outcome.value)];
      }
      i := i + 1;
    }
    assert mxf[i..] == [];
    w := Table(rows, Completed);
    ProcessWritesRegularFiles(mxf);
  }

  /**
    `main` after its environment checks: the header row first, then the
    rows the loop writes over the `.MXF` names of the listing.
   */
  method RunDerush(listing: seq<Entry>) returns (sheet: Table)
    ensures sheet == Derush(listing)
    ensures |sheet.rows| >= 1 && sheet.rows[0] == Header
    ensures forall k :: 1 <= k < |sheet.rows| ==>
      |sheet.rows[k]| == 7 && EndsWith(sheet.rows[k][0], MxfSuffix)
  {
    var w := WriteRows(MxfFiles(listing));
    sheet := Table([Header] + w.rows, w.completion);
    DataRowShape(listing);
  }
}
