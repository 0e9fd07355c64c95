/** The head-pose comparison script
    (headpose/openface/check_headpose_reliability.py): which files are
    compared, the 3 x N grid of panels with their labels, limits, colours
    and titles, the column projection of each loaded table, and the name
    of the saved figure. Reading the CSV files and drawing the figure are
    outside the model: a loaded file is a `Table`, and a panel is the
    record of what `plot_data` sets on it. */
module HeadPoseReliability {
  import opened Wrappers
  import opened PyStrings

  const OutputFolder: string := "/home/groupwork/groupwork-tool/data/data_processed/videos/OpenFace"
  const DefaultFiles: seq<string> := [
    "/home/groupwork/groupwork-tool/data/data_processed/videos/OpenFace/test_distance_webcam.csv",
    "/home/groupwork/groupwork-tool/data/data_processed/videos/OpenFace/test_distance_absolute_webcam.csv"
  ]

  const Colors: seq<string> := ["b", "r", "g", "c", "m", "y", "k"]
  const YLimits: seq<(int, int)> := [(-500, 500), (-500, 500), (0, 1500)]
  const Labels: seq<string> := ["pose_Tx", "pose_Ty", "pose_Tz"]
  const TitleSuffixes: seq<string> := [" - X Coordinate", " - Y Coordinate", " - Z Coordinate"]
  /** The columns `load_and_filter_data` keeps, in order. */
  const Columns: seq<string> := ["timestamp", "pose_Tx", "pose_Ty", "pose_Tz"]
  const Separator: string := "__vs__"
  const Suffix: string := "__headpose.png"

  // ---------------------------------------------------------------------
  // Inputs, colours, labels and titles

  /** A missing or empty list of inputs becomes the two default files, in
      their order. */
  function ResolveInputs(inputFiles: Option<seq<string>>): (files: seq<string>)
    ensures |files| >= 1
    ensures inputFiles.Some? && inputFiles.value != [] ==> files == inputFiles.value
    ensures inputFiles.None? || inputFiles.value == [] ==> files == DefaultFiles
  {
    if inputFiles.None? || inputFiles.value == [] then DefaultFiles else inputFiles.value
  }

  /** The colour of column `col`: the palette, cycled. */
  function ColorFor(col: nat): (c: string)
    ensures c in Colors
  {
    Colors[col % |Colors|]
  }

  /** Colours repeat every seven files. */
  lemma ColorsRepeat(col: nat)
    ensures ColorFor(col + 7) == ColorFor(col)
  {
  }

  /** The first seven files all get different colours. */
  lemma FirstColorsDistinct(i: nat, j: nat)
    requires i < j < 7
    ensures ColorFor(i) != ColorFor(j)
  {
  }

  /** The y-axis label: the second piece of the series label split at
      underscores; `None` is the IndexError of a label without one. */
  function YLabel(series: string): (y: Option<string>)
    ensures y.Some? <==> '_' in series
    ensures y.Some? ==> '_' !in y.value
  {
    var parts := Split(series, '_');
    CountZero(series, '_');
    if |parts| < 2 then None else Some(parts[1])
  }

  /** The three rows are labelled Tx, Ty and Tz. */
  lemma YLabelsOfRows()
    ensures YLabel(Labels[0]) == Some("Tx")
    ensures YLabel(Labels[1]) == Some("Ty")
    ensures YLabel(Labels[2]) == Some("Tz")
  {
    var x: string, y: string, z: string := "Tx", "Ty", "Tz";
    assert Labels[0] == "pose_" + x;
    assert Labels[1] == "pose_" + y;
    assert Labels[2] == "pose_" + z;
    YLabelOfPoseLabel(x);
    YLabelOfPoseLabel(y);
    YLabelOfPoseLabel(z);
  }

  /** A "pose_" label is labelled by its axis. */
  lemma YLabelOfPoseLabel(axis: string)
    requires '_' !in axis
    ensures YLabel("pose_" + axis) == Some(axis)
  {
    SplitPoseLabel(axis);
  }

  lemma SplitPoseLabel(axis: string)
    requires '_' !in axis
    ensures Split("pose_" + axis, '_') == ["pose", axis]
  {
    assert "pose_" + axis == "pose" + ['_'] + axis;
    SplitAfterPiece("pose", '_', axis);
    SplitNone(axis, '_');
  }

  /** A file's base name without its extension. */
  function Stem(path: string): (b: string)
    ensures '/' !in b
    ensures b + Splitext(Basename(path)).1 == Basename(path)
  {
    Splitext(Basename(path)).0
  }

  /** The title of the panel in row `row`. */
  function Title(baseName: string, row: nat): (t: string)
    requires row < 3
    ensures |t| == |baseName| + 15 && t[..|baseName|] == baseName
    ensures t[|baseName|..] == TitleSuffixes[row]
  {
    baseName + TitleSuffixes[row]
  }

  /** What `plot_data` sets on one panel: the plotted series, which also
      gives the y-axis label `YLabel(series)`, the title, the colour and the
      y limits. */
  datatype Panel = Panel(series: string, title: string, color: string, yLimits: (int, int))

  /** The panel in row `row` and column `col`. */
  function PanelFor(files: seq<string>, row: nat, col: nat): (p: Panel)
    requires row < 3 && col < |files|
    ensures p.series == Labels[row] && p.yLimits == YLimits[row] && p.yLimits.0 < p.yLimits.1
    ensures p.color in Colors
    ensures var b := Stem(files[col]); |b| <= |p.title| && p.title[..|b|] == b
  {
    YLimitsOrdered(row);
    Panel(Labels[row], Title(Stem(files[col]), row), ColorFor(col), YLimits[row])
  }

  /** Every row's lower y limit is below its upper one. */
  lemma YLimitsOrdered(row: nat)
    requires row < 3
    ensures YLimits[row].0 < YLimits[row].1
  {
  }

  /** Column `col` shows file `col`: rows X, Y, Z with their fixed labels
      and limits, titled after the file's base name, in one colour. */
  lemma PanelContents(files: seq<string>, col: nat)
    requires col < |files|
    ensures var b := Stem(files[col]);
      PanelFor(files, 0, col) == Panel("pose_Tx", b + " - X Coordinate", ColorFor(col), (-500, 500)) &&
      PanelFor(files, 1, col) == Panel("pose_Ty", b + " - Y Coordinate", ColorFor(col), (-500, 500)) &&
      PanelFor(files, 2, col) == Panel("pose_Tz", b + " - Z Coordinate", ColorFor(col), (0, 1500)) &&
      YLabel(PanelFor(files, 0, col).series) == Some("Tx") &&
      YLabel(PanelFor(files, 1, col).series) == Some("Ty") &&
      YLabel(PanelFor(files, 2, col).series) == Some("Tz")
  {
    YLabelsOfRows();
  }

  /** What `plot_data` sets on the panel of one row. */
  function RowPanel(row: nat, title: string, color: string): Panel
    requires row < 3
  {
    Panel(Labels[row], title, color, YLimits[row])
  }

  /** How many files load, in order, before the first whose projection
      raises. */
  function LoadedPrefix(tables: seq<Table>): (n: nat)
    requires forall i :: 0 <= i < |tables| ==> WellFormedTable(tables[i])
    ensures n <= |tables|
    ensures forall i :: 0 <= i < n ==> LoadAndFilter(tables[i]).Some?
    ensures n < |tables| ==> LoadAndFilter(tables[n]).None?
  {
    if |tables| == 0 || LoadAndFilter(tables[0]).None? then 0
    else 1 + LoadedPrefix(tables[1..])
  }

  /** The loaded prefix ends at the first file that fails to load. */
  lemma PrefixStopsAt(tables: seq<Table>, col: nat)
    requires forall i :: 0 <= i < |tables| ==> WellFormedTable(tables[i])
    requires col < |tables| && col <= LoadedPrefix(tables)
    requires LoadAndFilter(tables[col]).None?
    ensures LoadedPrefix(tables) == col
  {
  }

  /** `main`: a 3 x N grid (3 x 1 for a single file, which is what the
      `reshape` restores), filled column by column, each column after its
      file is loaded; `tables[i]` is what file i holds. A file missing one
      of the columns raises, so the columns after it stay empty and the
      figure is never saved; otherwise the figure is saved at `OutputPath`. */
  method PlotLayout(inputFiles: Option<seq<string>>, tables: seq<Table>)
    returns (axs: array2<Panel>, saved: Option<string>)
    requires |tables| == |ResolveInputs(inputFiles)|
    requires forall i :: 0 <= i < |tables| ==> WellFormedTable(tables[i])
    ensures fresh(axs)
    ensures axs.Length0 == 3 && axs.Length1 == |ResolveInputs(inputFiles)|
    ensures forall r, c :: 0 <= r < 3 && 0 <= c < LoadedPrefix(tables) ==>
      axs[r, c] == PanelFor(ResolveInputs(inputFiles), r, c)
    ensures saved.Some? <==> LoadedPrefix(tables) == |tables|
    ensures saved.Some? ==> saved.value == OutputPath(inputFiles)
  {
    var files := ResolveInputs(inputFiles);
    var numFiles := |files|;
    axs := new Panel[3, numFiles];
    for col := 0 to numFiles
      invariant col <= LoadedPrefix(tables)
      invariant forall r, c :: 0 <= r < 3 && 0 <= c < col ==> axs[r, c] == PanelFor(files, r, c)
    {
      var data := LoadAndFilter(tables[col]);
      if data.None? {
        PrefixStopsAt(tables, col);
        return axs, None;
      }
      var baseName := Stem(files[col]);
      PlotColumn(axs, col, baseName, ColorFor(col));
      ColumnIsPanelFor(files, col);
    }
    saved := Some(OutputPath(inputFiles));
  }

  /** A column plotted under its file's stem and colour holds the
      file's panels. */
  lemma ColumnIsPanelFor(files: seq<string>, col: nat)
    requires col < |files|
    ensures forall r :: 0 <= r < 3 ==>
      RowPanel(r, Title(Stem(files[col]), r), ColorFor(col)) == PanelFor(files, r, col)
  {
  }

  /** The inner loop over the three rows of column `col`. */
  method PlotColumn(axs: array2<Panel>, col: nat, baseName: string, color: string)
    requires axs.Length0 == 3 && col < axs.Length1
    modifies axs
    ensures forall r :: 0 <= r < 3 ==> axs[r, col] == RowPanel(r, Title(baseName, r), color)
    ensures forall r, c :: 0 <= r < 3 && 0 <= c < axs.Length1 && c != col ==> axs[r, c] == old(axs[r, c])
  {
    for row := 0 to 3
      invariant forall r :: 0 <= r < row ==> axs[r, col] == RowPanel(r, Title(baseName, r), color)
      invariant forall r, c :: 0 <= r < 3 && 0 <= c < axs.Length1 && c != col ==> axs[r, c] == old(axs[r, c])
    {
      axs[row, col] := RowPanel(row, Title(baseName, row), color);
    }
  }

  // ---------------------------------------------------------------------
  // Output file name

  /** The list comprehension of base names. */
  function Stems(files: seq<string>): (names: seq<string>)
    ensures |names| == |files| && forall i :: 0 <= i < |files| ==> names[i] == Stem(files[i])
  {
    seq(|files|, i requires 0 <= i < |files| => Stem(files[i]))
  }

  /** The figure's file name: the base names joined by "__vs__", then
      "__headpose.png". */
  function OutputFileName(files: seq<string>): (name: string)
    ensures |Suffix| <= |name| && name[|name| - |Suffix|..] == Suffix
    ensures |files| >= 1 ==>
      |name| == TotalLength(Stems(files)) + (|files| - 1) * |Separator| + |Suffix|
  {
    JoinWithLength(Stems(files), Separator);
    JoinWith(Stems(files), Separator) + Suffix
  }

  /** Comparing one more file inserts a separator and its base name before
      the suffix; so the names appear in input order. */
  lemma OutputFileNameSnoc(files: seq<string>, f: string)
    requires |files| >= 1
    ensures OutputFileName(files + [f]) ==
      JoinWith(Stems(files), Separator) + Separator + Stem(f) + Suffix
  {
    assert Stems(files + [f]) == Stems(files) + [Stem(f)];
    JoinWithSnoc(Stems(files), Stem(f), Separator);
  }

  /** With one file there is no separator at all. */
  lemma OutputFileNameSingle(f: string)
    ensures OutputFileName([f]) == Stem(f) + Suffix
  {
  }

  /** The saved figure's path. */
  function OutputPath(inputFiles: Option<seq<string>>): (path: string)
    ensures path == OutputFolder + "/" + OutputFileName(ResolveInputs(inputFiles))
    ensures Basename(path) == OutputFileName(ResolveInputs(inputFiles))
  {
    var files := ResolveInputs(inputFiles);
    var name := OutputFileName(files);
    OutputFileNameNoSlash(files);
    BasenameOfJoin(OutputFolder, name);
    BasenameOfPlain(name);
    PathJoin(OutputFolder, name)
  }

  /** The figure's file name holds no '/'. */
  lemma OutputFileNameNoSlash(files: seq<string>)
    ensures '/' !in OutputFileName(files)
  {
    var names := Stems(files);
    SeparatorAndSuffixNoSlash();
    JoinWithNoChar(names, Separator, '/');
    NoCharInConcat(JoinWith(names, Separator), Suffix, '/');
  }

  lemma SeparatorAndSuffixNoSlash()
    ensures '/' !in Separator && '/' !in Suffix
  {
  }

  // ---------------------------------------------------------------------
  // Column projection

  /** A loaded CSV file: its header and its rows. */
  datatype Table = Table(header: seq<string>, rows: seq<seq<real>>)

  predicate WellFormedTable(t: Table)
  {
    (forall i :: 0 <= i < |t.rows| ==> |t.rows[i]| == |t.header|) &&
    (forall i, j :: 0 <= i < j < |t.header| ==> t.header[i] != t.header[j])
  }

  /** Position of a column label, or -1. */
  function IndexOf(header: seq<string>, name: string): (k: int)
    ensures -1 <= k < |header|
    ensures k >= 0 ==> header[k] == name
    ensures k == -1 <==> name !in header
  {
    if |header| == 0 then -1
    else if header[0] == name then 0
    else
      var k := IndexOf(header[1..], name);
      if k == -1 then -1 else k + 1
  }

  /** The projection of a loaded table onto the four columns of interest,
      in that order; `None` is the KeyError pandas raises when one of them
      is missing. Pandas gives duplicate header names distinct suffixes,
      hence the distinct header. */
  function LoadAndFilter(t: Table): (r: Option<Table>)
    requires WellFormedTable(t)
    ensures r.Some? <==> forall j :: 0 <= j < |Columns| ==> Columns[j] in t.header
    ensures r.Some? ==> r.value.header == Columns && |r.value.rows| == |t.rows|
    ensures r.Some? ==> forall i, j :: 0 <= i < |t.rows| && 0 <= j < |Columns| ==>
      |r.value.rows[i]| == |Columns| && IndexOf(t.header, Columns[j]) >= 0 &&
      r.value.rows[i][j] == t.rows[i][IndexOf(t.header, Columns[j])]
  {
    var idx := seq(|Columns|, j requires 0 <= j < |Columns| => IndexOf(t.header, Columns[j]));
    assert forall j :: 0 <= j < |Columns| ==> (idx[j] == -1 <==> Columns[j] !in t.header);
    if exists j :: 0 <= j < |Columns| && idx[j] == -1 then None
    else
      Some(Table(Columns, seq(|t.rows|, i requires 0 <= i < |t.rows| =>
        seq(|Columns|, j requires 0 <= j < |Columns| => t.rows[i][idx[j]]))))
  }
}
