/** The column layout of the `list` action: names padded to the longest name,
    descriptions cut so that a line stays within the maximum width. */
module Layout {
  import opened Wrappers
  import opened Types
  import opened Text

  /** The maximum line width, tab excluded. */
  const MaxLineCharacters: int := 200

  function Min(a: int, b: int): (m: int)
  {
    if a <= b then a else b
  }

  /** The length of the longest name, 0 for no repositories. */
  function MaxNameLen(repos: seq<Repo>): (width: nat)
    ensures forall i :: 0 <= i < |repos| ==> |repos[i].name| <= width
    ensures |repos| == 0 ==> width == 0
    ensures |repos| > 0 ==> exists i :: 0 <= i < |repos| && |repos[i].name| == width
    decreases |repos|
  {
    if |repos| == 0 then 0
    else
      var rest := MaxNameLen(repos[..|repos| - 1]);
      var l := |repos[|repos| - 1].name|;
      if l > rest then l else rest
  }

  /** One printed line: the padded name and the shown part of the description,
      printed with a tab between them. */
  datatype Row = Row(paddedName: string, description: string)

  /** The printed text of a row. */
  function Render(row: Row): (line: string)
    ensures |line| == |row.paddedName| + 1 + |row.description|
    ensures line[..|row.paddedName|] == row.paddedName
    ensures line[|row.paddedName|] == '\t'
    ensures line[|row.paddedName| + 1..] == row.description
  {
    row.paddedName + "\t" + row.description
  }

  /** The row of one repository for column width `width`, or `None` where the
      program's description slice has a negative bound and panics. */
  function FormatRow(repo: Repo, width: nat): (r: Option<Row>)
    requires |repo.name| <= width
    ensures r.None? <==> width > MaxLineCharacters
    ensures r.Some? ==> |r.value.paddedName| == width
    ensures r.Some? ==> r.value.paddedName[..|repo.name|] == repo.name
    ensures r.Some? ==> forall k :: |repo.name| <= k < width ==> r.value.paddedName[k] == ' '
    ensures r.Some? ==> |r.value.description| == Min(|repo.description|, MaxLineCharacters - width)
    ensures r.Some? ==> r.value.description <= repo.description
    ensures r.Some? ==> |r.value.paddedName| + |r.value.description| <= MaxLineCharacters
  {
    var spacing := Spaces(width - |repo.name|);
    var limit := MaxLineCharacters - |repo.name| - |spacing|;
    var shown := if limit > |repo.description| then |repo.description| else limit;
    if shown < 0 then None
    else Some(Row(repo.name + spacing, repo.description[..shown]))
  }

  /** The rows of all repositories for a common column width. */
  function RowsAt(repos: seq<Repo>, width: nat): (r: Option<seq<Row>>)
    requires forall i :: 0 <= i < |repos| ==> |repos[i].name| <= width
    ensures r.None? <==> |repos| > 0 && width > MaxLineCharacters
    ensures r.Some? ==> |r.value| == |repos|
    ensures r.Some? ==> forall i :: 0 <= i < |repos| ==> FormatRow(repos[i], width) == Some(r.value[i])
    decreases |repos|
  {
    if |repos| == 0 then Some([])
    else
      match FormatRow(repos[0], width)
      case None => None
      case Some(row) =>
        match RowsAt(repos[1..], width)
        case None => None
        case Some(rows) => Some([row] + rows)
  }

  /** The body of the `list` action after retrieval: pad to the longest name
      and cut descriptions. A longest name over the maximum width makes the
      program panic at the first row, before anything is printed. */
  function LayoutRows(repos: seq<Repo>): (r: Option<seq<Row>>)
    ensures r.None? <==> |repos| > 0 && MaxNameLen(repos) > MaxLineCharacters
    ensures r.Some? ==> |r.value| == |repos|
    ensures r.Some? ==> forall i :: 0 <= i < |repos| ==>
              && |r.value[i].paddedName| == MaxNameLen(repos)
              && r.value[i].paddedName[..|repos[i].name|] == repos[i].name
              && (forall k :: |repos[i].name| <= k < MaxNameLen(repos) ==> r.value[i].paddedName[k] == ' ')
              && r.value[i].description <= repos[i].description
              && |r.value[i].description| == Min(|repos[i].description|, MaxLineCharacters - MaxNameLen(repos))
              && |r.value[i].paddedName| + |r.value[i].description| <= MaxLineCharacters
  {
    RowsAt(repos, MaxNameLen(repos))
  }

  /** Every rendered line puts its tab at the column of the longest name and
      is at most one tab longer than the maximum width. */
  lemma LinesAligned(repos: seq<Repo>, i: nat)
    requires LayoutRows(repos).Some? && i < |repos|
    ensures Render(LayoutRows(repos).value[i])[MaxNameLen(repos)] == '\t'
    ensures |Render(LayoutRows(repos).value[i])| <= MaxLineCharacters + 1
  {
  }

  /** `line` shows `repo` in a column of width `w`: it starts with the name,
      continues with spaces up to column `w`, has its tab there, and ends with
      the description cut to the width left over. */
  predicate ShowsRepo(line: string, repo: Repo, w: nat)
  {
    && w <= MaxLineCharacters
    && repo.name <= line
    && |line| == w + 1 + Min(|repo.description|, MaxLineCharacters - w)
    && (forall k :: |repo.name| <= k < w ==> line[k] == ' ')
    && line[w] == '\t'
    && line[w + 1..] <= repo.description
  }

  /** The printed line of repository `i` shows it in the column of the
      longest name. */
  lemma RenderedLine(repos: seq<Repo>, i: nat)
    requires LayoutRows(repos).Some? && i < |repos|
    ensures ShowsRepo(Render(LayoutRows(repos).value[i]), repos[i], MaxNameLen(repos))
  {
    var rows := LayoutRows(repos).value;
    var w := MaxNameLen(repos);
    assert |rows[i].paddedName| == w;
    assert rows[i].paddedName[..|repos[i].name|] == repos[i].name;
    assert |repos[i].name| <= w;
    RenderKeepsName(rows[i], repos[i].name);
    forall k | |repos[i].name| <= k < w
      ensures Render(rows[i])[k] == ' '
    {
      assert Render(rows[i])[k] == Render(rows[i])[..w][k];
    }
  }

  /** A name the padded name starts with is also where the rendered line starts. */
  lemma RenderKeepsName(row: Row, name: string)
    requires |name| <= |row.paddedName| && row.paddedName[..|name|] == name
    ensures name <= Render(row)
  {
    var line := Render(row);
    assert line[..|row.paddedName|] == row.paddedName;
    assert line[..|name|] == line[..|row.paddedName|][..|name|];
  }

  /** The lines the `list` action prints, one per repository in order, or
      `None` when the program panics. Line `i` is the name of repository `i`
      padded to the longest name, a tab, and a prefix of its description cut
      so that name and description fit the maximum width. */
  function PrintedLines(repos: seq<Repo>): (lines: Option<seq<string>>)
    ensures lines.None? <==> |repos| > 0 && MaxNameLen(repos) > MaxLineCharacters
    ensures lines.Some? ==> |lines.value| == |repos|
    ensures lines.Some? ==>
              forall i :: 0 <= i < |repos| ==> ShowsRepo(lines.value[i], repos[i], MaxNameLen(repos))
  {
    match LayoutRows(repos)
    case None => None
    case Some(rows) =>
      var lines := seq(|rows|, i requires 0 <= i < |rows| => Render(rows[i]));
      forall i | 0 <= i < |repos|
        ensures ShowsRepo(lines[i], repos[i], MaxNameLen(repos))
      {
        RenderedLine(repos, i);
      }
      Some(lines)
  }

  /** Names of lengths 3, 7 and 1 are all padded to width 7, and a long
      description next to them is cut to 200 - 7 bytes. */
  lemma PaddingExample(long: string)
    requires |long| > 300
    ensures
      var repos := [Repo(1, "a/b", "", "", ""), Repo(2, "abc/def", long, "", ""), Repo(3, "x", "", "", "")];
      && MaxNameLen(repos) == 7
      && LayoutRows(repos).Some?
      && (forall i :: 0 <= i < 3 ==> |LayoutRows(repos).value[i].paddedName| == 7)
      && LayoutRows(repos).value[1].description == long[..193]
  {
  }
}
