/** `generate_report`: the Discord embed that compares two snapshots. `ReportOf` is the
    version of utils.py and afi_tracker/utils/frontend.py (identical bodies);
    `LegacyReportOf` is the older one of frontend.py. The embed's title is the current
    clock rendered as `**HH:MM DD.MM.YYYY**` and the old snapshot's time is rendered by
    Python's `str(datetime)`; both come in already rendered. */
module Report {
  import opened Outcomes
  import opened Text
  import opened Delta

  /** `MAX_REPORT_ENTRIES`: the most rows one report shows. */
  const MaxReportEntries: nat := 50

  /** The new list's 20th entry closes the top 20. */
  const TopCount: nat := 20

  const Green: string := "\U{1B}[2;32m"
  const Red: string := "\U{1B}[2;31m"
  const Reset: string := "\U{1B}[0m"

  const NoChangesLine: string := "Нет изменений в рейтинге участников."

  datatype Field = Field(name: string, inline: bool, value: string)

  datatype Embed = Embed(title: string, description: string, fields: seq<Field>)

  datatype ReportError =
    | EmptyMemberList    // the ValueError raised for an empty old or new list
    | NoTwentiethMember  // the IndexError of `new_members[19]` in frontend.py

  // ---------------------------------------------------------------------------
  // Cells and columns

  /** A change as the diff column shows it: green with a plus sign when positive, red
      when negative, plain when zero. `ReadDiffCell` reads it back. */
  function DiffCell(d: int): string {
    if d > 0 then Green + "+" + IntToString(d) + Reset
    else if d < 0 then Red + IntToString(d) + Reset
    else IntToString(d)
  }

  /** The inner text of `cell` between `prefix` and the colour reset, when it has both. */
  function Unwrap(cell: string, prefix: string): Option<string> {
    if |cell| >= |prefix| + |Reset| && cell[..|prefix|] == prefix && cell[|cell| - |Reset|..] == Reset
    then Some(cell[|prefix|..|cell| - |Reset|])
    else None
  }

  /** What a reader of the diff column takes a cell to say. */
  function ReadDiffCell(cell: string): Option<int> {
    match Unwrap(cell, Green + "+")
    case Some(t) => ParseInt(t)
    case None =>
      match Unwrap(cell, Red)
      case Some(t) => ParseInt(t)
      case None => ParseInt(cell)
  }

  /** Every diff cell reads back as the change it shows, and its colour is the change's
      sign: green exactly for gains, red exactly for losses. */
  lemma DiffCellRoundTrip(d: int)
    ensures ReadDiffCell(DiffCell(d)) == Some(d)
    ensures (Unwrap(DiffCell(d), Green + "+").Some?) <==> d > 0
    ensures (Unwrap(DiffCell(d), Red).Some?) <==> d < 0
  {
    var cell := DiffCell(d);
    var t := IntToString(d);
    ParseIntToString(d);
    if d > 0 {
      assert cell == (Green + "+") + t + Reset;
      assert cell[..|Green + "+"|] == Green + "+";
      assert cell[|cell| - |Reset|..] == Reset;
      assert cell[|Green + "+"|..|cell| - |Reset|] == t;
      assert cell[..|Red|][5] == '2' != Red[5];
    } else if d < 0 {
      assert cell == Red + t + Reset;
      assert cell[..|Red|] == Red;
      assert cell[|cell| - |Reset|..] == Reset;
      assert cell[|Red|..|cell| - |Reset|] == t;
      assert |cell| >= |Green + "+"| + |Reset| ==> cell[..|Green + "+"|][5] == '1' != (Green + "+")[5];
    } else {
      assert cell == "0";
    }
  }

  /** A column: a code block holding one item per line; `header` names the highlighting. */
  function Column(header: string, items: seq<string>): string {
    "```" + header + "\n" + Join(items, '\n') + "```"
  }

  /** The lines of a column, as a reader splits them. */
  function ReadColumn(header: string, value: string): seq<string> {
    if |value| >= |header| + 7 then Split(value[|header| + 4..|value| - 3], '\n') else []
  }

  /** A column of items without newlines reads back as exactly those items. */
  lemma {:induction false} ColumnRoundTrip(header: string, items: seq<string>)
    requires |items| >= 1
    requires forall i :: 0 <= i < |items| ==> '\n' !in items[i]
    ensures ReadColumn(header, Column(header, items)) == items
  {
    var c := Column(header, items);
    var body := Join(items, '\n');
    assert c == ("```" + header + "\n") + body + "```";
    assert c[|header| + 4..|c| - 3] == body;
    SplitJoin(items, '\n');
  }

  function RatingCells(rows: seq<Entry>): (cells: seq<string>)
    ensures |cells| == |rows|
  {
    seq(|rows|, i requires 0 <= i < |rows| => IntToString(rows[i].current))
  }

  function DiffCells(rows: seq<Entry>): (cells: seq<string>)
    ensures |cells| == |rows|
  {
    seq(|rows|, i requires 0 <= i < |rows| => DiffCell(rows[i].change))
  }

  /** The three inline fields: names, current ratings, changes. */
  function Columns(rows: seq<Entry>): seq<Field> {
    [ Field(" ", true, Column("", EntryNames(rows))),
      Field(" ", true, Column("", RatingCells(rows))),
      Field(" ", true, Column("ansi", DiffCells(rows))) ]
  }

  // ---------------------------------------------------------------------------
  // The report

  /** `member_delta[:MAX_REPORT_ENTRIES]`: the first rows, at most fifty of them. */
  function Truncate(rows: seq<Entry>): (shown: seq<Entry>)
    ensures shown <= rows
    ensures |shown| == if |rows| <= MaxReportEntries then |rows| else MaxReportEntries
  {
    if |rows| <= MaxReportEntries then rows else rows[..MaxReportEntries]
  }

  /** The description's lines: the gain since the old snapshot, the new total, and, when
      the new list has a 20th entry, that entry's rating. */
  function DescriptionLines(oldTime: string, oldTotal: int, newTotal: int, newMembers: seq<Member>): seq<string> {
    [ "С " + oldTime + " полк набрал " + IntToString(newTotal - oldTotal) + " очков.",
      "Всего у полка " + IntToString(newTotal) + " очков." ]
    + (if |newMembers| >= TopCount then ["Конец топ-20 = " + IntToString(newMembers[TopCount - 1].rating) + "."] else [])
  }

  function Description(oldTime: string, oldTotal: int, newTotal: int, newMembers: seq<Member>): string {
    Join(DescriptionLines(oldTime, oldTotal, newTotal, newMembers), '\n')
  }

  /** utils.py `generate_report`: fails exactly when either list is empty. */
  function ReportOf(title: string, oldTime: string, oldTotal: int, oldMembers: seq<Member>,
                    newTotal: int, newMembers: seq<Member>): (r: Result<Embed, ReportError>)
    ensures r.Failure? <==> oldMembers == [] || newMembers == []
    ensures r.Failure? ==> r.error == EmptyMemberList
    ensures r.Success? ==> r.value.title == title
  {
    if oldMembers == [] || newMembers == [] then Failure(EmptyMemberList)
    else
      var rows := Truncate(GuardedMemberDelta(oldMembers, newMembers));
      var description := Description(oldTime, oldTotal, newTotal, newMembers);
      if rows == [] then Success(Embed(title, description + "\n\n" + NoChangesLine, []))
      else Success(Embed(title, description, Columns(rows)))
  }

  /** frontend.py `generate_report`: fails exactly when the new list has no 20th entry,
      and otherwise always has the three columns, empty or not. */
  function LegacyReportOf(title: string, oldTime: string, oldTotal: int, oldMembers: seq<Member>,
                          newTotal: int, newMembers: seq<Member>): (r: Result<Embed, ReportError>)
    ensures r.Failure? <==> |newMembers| < TopCount
    ensures r.Failure? ==> r.error == NoTwentiethMember
    ensures r.Success? ==> r.value.title == title && |r.value.fields| == 3
  {
    if |newMembers| < TopCount then Failure(NoTwentiethMember)
    else
      var rows := Truncate(MemberDelta(oldMembers, newMembers));
      Success(Embed(title, Description(oldTime, oldTotal, newTotal, newMembers), Columns(rows)))
  }

  // ---------------------------------------------------------------------------
  // What the report promises

  lemma NumberLineAvoidsNewline(before: string, n: int, after: string)
    requires '\n' !in before && '\n' !in after
    ensures '\n' !in before + IntToString(n) + after
  {
    IntToStringAvoids(n, '\n');
  }

  lemma LinesAvoidNewline(oldTime: string, oldTotal: int, newTotal: int, newMembers: seq<Member>)
    requires '\n' !in oldTime
    ensures var lines := DescriptionLines(oldTime, oldTotal, newTotal, newMembers);
      forall i :: 0 <= i < |lines| ==> '\n' !in lines[i]
  {
    NumberLineAvoidsNewline("С " + oldTime + " полк набрал ", newTotal - oldTotal, " очков.");
    NumberLineAvoidsNewline("Всего у полка ", newTotal, " очков.");
    if |newMembers| >= TopCount {
      NumberLineAvoidsNewline("Конец топ-20 = ", newMembers[TopCount - 1].rating, ".");
    }
  }

  /** The description has two lines, or three exactly when the new list has a 20th entry;
      the second reads back as the new total and the third as that entry's rating. */
  lemma DescriptionReadsBack(oldTime: string, oldTotal: int, newTotal: int, newMembers: seq<Member>)
    requires '\n' !in oldTime
    ensures var lines := Split(Description(oldTime, oldTotal, newTotal, newMembers), '\n');
      && lines == DescriptionLines(oldTime, oldTotal, newTotal, newMembers)
      && |lines| == (if |newMembers| >= TopCount then 3 else 2)
      && ParseInt(lines[1][|"Всего у полка "|..|lines[1]| - |" очков."|]) == Some(newTotal)
      && (|newMembers| >= TopCount ==>
            ParseInt(lines[2][|"Конец топ-20 = "|..|lines[2]| - 1]) == Some(newMembers[TopCount - 1].rating))
  {
    var lines := DescriptionLines(oldTime, oldTotal, newTotal, newMembers);
    LinesAvoidNewline(oldTime, oldTotal, newTotal, newMembers);
    SplitJoin(lines, '\n');
    ParseIntToString(newTotal);
    assert lines[1][|"Всего у полка "|..|lines[1]| - |" очков."|] == IntToString(newTotal);
    if |newMembers| >= TopCount {
      var top := newMembers[TopCount - 1].rating;
      ParseIntToString(top);
      assert lines[2][|"Конец топ-20 = "|..|lines[2]| - 1] == IntToString(top);
    }
  }

  /** With nothing to show the embed has no fields; otherwise it has the three columns. */
  lemma ReportFieldsIffChanges(title: string, oldTime: string, oldTotal: int, oldMembers: seq<Member>,
                               newTotal: int, newMembers: seq<Member>)
    requires oldMembers != [] && newMembers != []
    ensures var r := ReportOf(title, oldTime, oldTotal, oldMembers, newTotal, newMembers);
      && (r.value.fields == [] <==> MemberDelta(oldMembers, newMembers) == [])
      && (r.value.fields != [] ==> r.value.fields == Columns(Truncate(MemberDelta(oldMembers, newMembers))))
  {
  }

  /** With nothing to show, the description gains a blank line and the no-changes line;
      otherwise it is the description lines alone. */
  lemma ReportDescriptionLines(title: string, oldTime: string, oldTotal: int, oldMembers: seq<Member>,
                               newTotal: int, newMembers: seq<Member>)
    requires oldMembers != [] && newMembers != []
    requires '\n' !in oldTime
    ensures var r, lines := ReportOf(title, oldTime, oldTotal, oldMembers, newTotal, newMembers),
                            DescriptionLines(oldTime, oldTotal, newTotal, newMembers);
      && (r.value.fields == [] ==> Split(r.value.description, '\n') == lines + ["", NoChangesLine])
      && (r.value.fields != [] ==> Split(r.value.description, '\n') == lines)
  {
    var lines := DescriptionLines(oldTime, oldTotal, newTotal, newMembers);
    LinesAvoidNewline(oldTime, oldTotal, newTotal, newMembers);
    SplitJoin(lines, '\n');
    NoChangesSplits(lines);
  }

  lemma NoChangesLineIsOneLine()
    ensures '\n' !in NoChangesLine
  {
  }

  lemma NoChangesSplits(lines: seq<string>)
    requires |lines| >= 1
    requires forall i :: 0 <= i < |lines| ==> '\n' !in lines[i]
    ensures Split(Join(lines, '\n') + "\n\n" + NoChangesLine, '\n') == lines + ["", NoChangesLine]
  {
    NoChangesLineIsOneLine();
    BlankLineThenSplits(lines, NoChangesLine);
  }

  /** Appending a blank line and one more line to joined lines splits into those lines,
      an empty one and the last. */
  lemma BlankLineThenSplits(lines: seq<string>, last: string)
    requires |lines| >= 1
    requires forall i :: 0 <= i < |lines| ==> '\n' !in lines[i]
    requires '\n' !in last
    ensures Split(Join(lines, '\n') + "\n\n" + last, '\n') == lines + ["", last]
  {
    var all := lines + ["", last];
    assert forall i :: 0 <= i < |all| ==> '\n' !in all[i];
    JoinAppend(lines, ["", last], '\n');
    assert Join(["", last], '\n') == "\n" + last;
    assert Join(lines, '\n') + "\n\n" + last == Join(lines, '\n') + ['\n'] + ("\n" + last);
    SplitJoin(all, '\n');
  }

  lemma {:induction false} JoinAppend(a: seq<string>, b: seq<string>, c: char)
    requires |a| >= 1 && |b| >= 1
    ensures Join(a + b, c) == Join(a, c) + [c] + Join(b, c)
  {
    if |a| == 1 {
      assert (a + b)[1..] == b;
    } else {
      assert (a + b)[1..] == a[1..] + b;
      JoinAppend(a[1..], b, c);
    }
  }

  /** The name column holds one name per line. */
  lemma NameColumnReadsBack(rows: seq<Entry>)
    requires |rows| >= 1
    requires forall i :: 0 <= i < |rows| ==> '\n' !in rows[i].name
    ensures ReadColumn("", Columns(rows)[0].value) == EntryNames(rows)
  {
    ColumnRoundTrip("", EntryNames(rows));
  }

  /** The rating column holds one line per row, reading back as its current rating. */
  lemma RatingColumnReadsBack(rows: seq<Entry>)
    requires |rows| >= 1
    ensures var lines := ReadColumn("", Columns(rows)[1].value);
      |lines| == |rows| && forall i :: 0 <= i < |rows| ==> ParseInt(lines[i]) == Some(rows[i].current)
  {
    var cells := RatingCells(rows);
    forall i | 0 <= i < |rows| ensures '\n' !in cells[i] && ParseInt(cells[i]) == Some(rows[i].current) {
      IntToStringAvoids(rows[i].current, '\n');
      ParseIntToString(rows[i].current);
    }
    ColumnRoundTrip("", cells);
  }

  /** The diff column holds one line per row, reading back as its change. */
  lemma DiffColumnReadsBack(rows: seq<Entry>)
    requires |rows| >= 1
    ensures var lines := ReadColumn("ansi", Columns(rows)[2].value);
      |lines| == |rows| && forall i :: 0 <= i < |rows| ==> ReadDiffCell(lines[i]) == Some(rows[i].change)
  {
    var cells := DiffCells(rows);
    forall i | 0 <= i < |rows| ensures '\n' !in cells[i] && ReadDiffCell(cells[i]) == Some(rows[i].change) {
      var d := rows[i].change;
      IntToStringAvoids(d, '\n');
      DiffCellRoundTrip(d);
      assert '\n' !in Green + "+" && '\n' !in Red && '\n' !in Reset;
    }
    ColumnRoundTrip("ansi", cells);
  }

  /** The report shows the first rows of the delta, at most fifty. */
  lemma ReportShowsDeltaPrefix(title: string, oldTime: string, oldTotal: int, oldMembers: seq<Member>,
                               newTotal: int, newMembers: seq<Member>)
    requires oldMembers != [] && newMembers != []
    requires forall i :: 0 <= i < |newMembers| ==> '\n' !in newMembers[i].name
    requires forall i :: 0 <= i < |oldMembers| ==> '\n' !in oldMembers[i].name
    ensures var r, d := ReportOf(title, oldTime, oldTotal, oldMembers, newTotal, newMembers), MemberDelta(oldMembers, newMembers);
      d != [] ==>
        var n := if |d| <= MaxReportEntries then |d| else MaxReportEntries;
        && |r.value.fields| == 3
        && ReadColumn("", r.value.fields[0].value) == EntryNames(d[..n])
  {
    var d := MemberDelta(oldMembers, newMembers);
    if d != [] {
      var rows := Truncate(d);
      var od, nd := DictOf(oldMembers), DictOf(newMembers);
      DictKeys(oldMembers);
      DictKeys(newMembers);
      DeltaRows(od, nd);
      forall i | 0 <= i < |rows| ensures '\n' !in rows[i].name {
        assert rows[i] == d[i];
        assert d[i].name in NamesOf(newMembers) || d[i].name in NamesOf(oldMembers);
      }
      NameColumnReadsBack(rows);
      assert d[..|rows|] == rows;
    }
  }

  /** The cut to fifty rows drops leavers first: when a shown row is a leaver, every row
      cut off is one too. */
  lemma TruncationDropsLeaversFirst(oldMembers: seq<Member>, newMembers: seq<Member>)
    ensures var d, nd := MemberDelta(oldMembers, newMembers), DictOf(newMembers);
      var shown := Truncate(d);
      forall i, j :: 0 <= i < |shown| <= j < |d| && shown[i].name !in nd.value ==> d[j].name !in nd.value
  {
    var d := MemberDelta(oldMembers, newMembers);
    var shown := Truncate(d);
    var od, nd := DictOf(oldMembers), DictOf(newMembers);
    assert d == DeltaOf(od, nd);
    DeltaLeaversLast(od, nd);
    forall i, j | 0 <= i < |shown| <= j < |d| && shown[i].name !in nd.value
      ensures d[j].name !in nd.value
    {
      assert shown[i] == d[i] && i < j;
    }
  }

  /** The old version agrees with the current one whenever it does not fail and there is
      something to show. */
  lemma LegacyAgreesWithCurrent(title: string, oldTime: string, oldTotal: int, oldMembers: seq<Member>,
                                newTotal: int, newMembers: seq<Member>)
    requires oldMembers != [] && |newMembers| >= TopCount
    requires MemberDelta(oldMembers, newMembers) != []
    ensures LegacyReportOf(title, oldTime, oldTotal, oldMembers, newTotal, newMembers)
         == ReportOf(title, oldTime, oldTotal, oldMembers, newTotal, newMembers)
  {
  }

  /** With nothing to show, the old version still sends three empty code blocks and no
      no-changes line. */
  lemma LegacyEmptyColumns(title: string, oldTime: string, oldTotal: int, oldMembers: seq<Member>,
                           newTotal: int, newMembers: seq<Member>)
    requires |newMembers| >= TopCount
    requires MemberDelta(oldMembers, newMembers) == []
    ensures LegacyReportOf(title, oldTime, oldTotal, oldMembers, newTotal, newMembers)
            == Success(Embed(title, Description(oldTime, oldTotal, newTotal, newMembers), Columns([])))
  {
    assert Truncate(MemberDelta(oldMembers, newMembers)) == [];
  }

  /** The three columns of no rows are empty code blocks. */
  lemma EmptyColumns()
    ensures var fields := Columns([]);
      && |fields| == 3
      && fields[0].value == "```" + "" + "\n```" && fields[1].value == "```" + "" + "\n```"
      && fields[2].value == "```" + "ansi" + "\n```"
  {
    assert EntryNames([]) == [] && RatingCells([]) == [] && DiffCells([]) == [];
    EmptyColumnText("");
    EmptyColumnText("ansi");
  }

  lemma EmptyColumnText(header: string)
    ensures Column(header, []) == "```" + header + "\n```"
  {
    assert Join([], '\n') == "";
  }

  // ---------------------------------------------------------------------------
  // The code as it runs

  /** The loop building the diff column. */
  method FormatDiffs(rows: seq<Entry>) returns (cells: seq<string>)
    ensures cells == DiffCells(rows)
  {
    cells := [];
    var i := 0;
    while i < |rows|
      invariant 0 <= i <= |rows|
      invariant |cells| == i && forall k :: 0 <= k < i ==> cells[k] == DiffCell(rows[k].change)
    {
      var diff := rows[i].change;
      if diff > 0 {
        cells := cells + [Green + "+" + IntToString(diff) + Reset];
      } else if diff < 0 {
        cells := cells + [Red + IntToString(diff) + Reset];
      } else {
        cells := cells + [IntToString(diff)];
      }
      i := i + 1;
    }
  }

  /** utils.py `generate_report` as written. */
  method GenerateReport(title: string, oldTime: string, oldTotal: int, oldMembers: seq<Member>,
                        newTotal: int, newMembers: seq<Member>) returns (r: Result<Embed, ReportError>)
    ensures r == ReportOf(title, oldTime, oldTotal, oldMembers, newTotal, newMembers)
  {
    if oldMembers == [] || newMembers == [] {
      return Failure(EmptyMemberList);
    }
    var description := Description(oldTime, oldTotal, newTotal, newMembers);
    var delta := ComputeGuardedMemberDelta(oldMembers, newMembers);
    var rows := Truncate(delta);
    if rows == [] {
      return Success(Embed(title, description + "\n\n" + NoChangesLine, []));
    }
    var diffs := FormatDiffs(rows);
    var fields := [Field(" ", true, Column("", EntryNames(rows))),
                   Field(" ", true, Column("", RatingCells(rows))),
                   Field(" ", true, Column("ansi", diffs))];
    r := Success(Embed(title, description, fields));
  }

  /** frontend.py `generate_report` as written. */
  method GenerateLegacyReport(title: string, oldTime: string, oldTotal: int, oldMembers: seq<Member>,
                              newTotal: int, newMembers: seq<Member>) returns (r: Result<Embed, ReportError>)
    ensures r == LegacyReportOf(title, oldTime, oldTotal, oldMembers, newTotal, newMembers)
  {
    if |newMembers| < TopCount {
      return Failure(NoTwentiethMember);
    }
    var description := Description(oldTime, oldTotal, newTotal, newMembers);
    var delta := ComputeMemberDelta(oldMembers, newMembers);
    var rows := Truncate(delta);
    var diffs := FormatDiffs(rows);
    r := Success(Embed(title, description, [Field(" ", true, Column("", EntryNames(rows))),
                                            Field(" ", true, Column("", RatingCells(rows))),
                                            Field(" ", true, Column("ansi", diffs))]));
  }
}
