/** The text the "copy table" button of the leaderboard puts on the clipboard
    (components/Leaderboard.tsx, `handleCopyTable`): a header line, then one
    line per row with seven tab-separated fields. */
module Export {
  import opened Types
  import opened Decimal
  import opened Ranking

  /** `parts.join(sep)`: the parts with one separator between neighbours;
      nothing for no parts. */
  function Join(parts: seq<string>, sep: char): string {
    if |parts| == 0 then []
    else if |parts| == 1 then parts[0]
    else parts[0] + [sep] + Join(parts[1..], sep)
  }

  /** `s.split(sep)` as JavaScript does it for a one-character separator: the
      pieces between separators, with an empty piece for each empty stretch,
      so the empty string splits into one empty piece. */
  function Split(s: string, sep: char): (parts: seq<string>)
    ensures |parts| >= 1
    ensures forall i :: 0 <= i < |parts| ==> sep !in parts[i]
  {
    if s == [] then [[]]
    else if s[0] == sep then [[]] + Split(s[1..], sep)
    else
      var t := Split(s[1..], sep);
      [[s[0]] + t[0]] + t[1..]
  }

  /** A string without the separator is one piece. */
  lemma {:induction false} SplitPlain(a: string, sep: char)
    requires sep !in a
    ensures Split(a, sep) == [a]
  {
    if a != [] {
      assert sep !in a[1..];
      SplitPlain(a[1..], sep);
      assert [a[0]] + a[1..] == a;
    }
  }

  /** Splitting at the first separator. */
  lemma {:induction false} SplitAtFirst(a: string, sep: char, b: string)
    requires sep !in a
    ensures Split(a + [sep] + b, sep) == [a] + Split(b, sep)
  {
    if a == [] {
      assert a + [sep] + b == [sep] + b;
      assert ([sep] + b)[1..] == b;
    } else {
      var s := a + [sep] + b;
      assert s[0] == a[0];
      assert s[1..] == a[1..] + [sep] + b;
      assert sep !in a[1..];
      SplitAtFirst(a[1..], sep, b);
      assert [a[0]] + a[1..] == a;
    }
  }

  /** Splitting a join gives the parts back when no part holds the separator. */
  lemma {:induction false} SplitJoin(parts: seq<string>, sep: char)
    requires |parts| >= 1
    requires forall i :: 0 <= i < |parts| ==> sep !in parts[i]
    ensures Split(Join(parts, sep), sep) == parts
  {
    if |parts| == 1 {
      SplitPlain(parts[0], sep);
    } else {
      SplitJoin(parts[1..], sep);
      SplitAtFirst(parts[0], sep, Join(parts[1..], sep));
      assert [parts[0]] + parts[1..] == parts;
    }
  }

  /** A character that is neither the separator nor in any part is not in the join. */
  lemma {:induction false} JoinAvoids(parts: seq<string>, sep: char, c: char)
    requires c != sep
    requires forall i :: 0 <= i < |parts| ==> c !in parts[i]
    ensures c !in Join(parts, sep)
  {
    if |parts| > 1 {
      JoinAvoids(parts[1..], sep, c);
    }
  }

  /** The win column: "W" for a slot that took rank 1, "-" otherwise. */
  function WinMark(win: bool): (m: string)
    ensures |m| == 1
    ensures win ==> m == "W"
    ensures !win ==> m == "-"
  {
    if win then "W" else "-"
  }

  /** The seven fields of a copied row: rank, slot name, win mark, kills,
      kill points, position points, total. The name is built from the slot
      number, not taken from `teamName`. */
  function RowFields(row: FinalLeaderboardRow): (f: seq<string>)
    ensures |f| == 7
    ensures f[1] == TeamName(row.slotNo) && f[2] == WinMark(row.win)
    ensures f[0] == IntToString(row.rank) && f[3] == IntToString(row.totalKills)
    ensures f[4] == IntToString(row.killPoints) && f[5] == IntToString(row.positionPoints)
    ensures f[6] == IntToString(row.totalPoints)
  {
    [IntToString(row.rank), TeamName(row.slotNo), WinMark(row.win), IntToString(row.totalKills),
     IntToString(row.killPoints), IntToString(row.positionPoints), IntToString(row.totalPoints)]
  }

  /** No field holds a tab or a newline. */
  lemma FieldsPlain(row: FinalLeaderboardRow)
    ensures forall i :: 0 <= i < 7 ==> '\t' !in RowFields(row)[i] && '\n' !in RowFields(row)[i]
  {
    IntToStringPlain(row.rank);
    IntToStringPlain(row.slotNo);
    IntToStringPlain(row.totalKills);
    IntToStringPlain(row.killPoints);
    IntToStringPlain(row.positionPoints);
    IntToStringPlain(row.totalPoints);
    var name := TeamName(row.slotNo);
    assert name == "Slot " + IntToString(row.slotNo);
    forall i | 0 <= i < |name| ensures name[i] != '\t' && name[i] != '\n' {
      if i >= 5 {
        assert name[i] == IntToString(row.slotNo)[i - 5];
      }
    }
  }

  /** How many times c occurs in s. */
  function CountChar(s: string, c: char): (n: nat)
    ensures n <= |s|
  {
    if s == [] then 0 else (if s[0] == c then 1 else 0) + CountChar(s[1..], c)
  }

  lemma {:induction false} CountCharConcat(a: string, b: string, c: char)
    ensures CountChar(a + b, c) == CountChar(a, c) + CountChar(b, c)
  {
    if a == [] {
      assert a + b == b;
    } else {
      assert (a + b)[1..] == a[1..] + b;
      CountCharConcat(a[1..], b, c);
    }
  }

  lemma {:induction false} CountCharAbsent(a: string, c: char)
    requires c !in a
    ensures CountChar(a, c) == 0
  {
    if a != [] {
      assert c !in a[1..];
      CountCharAbsent(a[1..], c);
    }
  }

  /** Joining n separator-free parts puts exactly n - 1 separators in the text. */
  lemma {:induction false} JoinSeparatorCount(parts: seq<string>, sep: char)
    requires |parts| >= 1
    requires forall i :: 0 <= i < |parts| ==> sep !in parts[i]
    ensures CountChar(Join(parts, sep), sep) == |parts| - 1
  {
    CountCharAbsent(parts[0], sep);
    if |parts| > 1 {
      JoinSeparatorCount(parts[1..], sep);
      CountCharConcat(parts[0] + [sep], Join(parts[1..], sep), sep);
      CountCharConcat(parts[0], [sep], sep);
    }
  }

  /** One copied row. */
  function RowLine(row: FinalLeaderboardRow): string {
    Join(RowFields(row), '\t')
  }

  /** A copied row is one line: it holds no newline. */
  lemma RowLinePlain(row: FinalLeaderboardRow)
    ensures '\n' !in RowLine(row)
  {
    FieldsPlain(row);
    JoinAvoids(RowFields(row), '\t', '\n');
  }

  /** Each copied row holds exactly six tabs, one between each two of its seven fields. */
  lemma RowLineTabs(row: FinalLeaderboardRow)
    ensures CountChar(RowLine(row), '\t') == 6
  {
    FieldsPlain(row);
    JoinSeparatorCount(RowFields(row), '\t');
  }

  /** A copied row splits at its tabs into exactly its seven fields, and each
      number reads back as the value it was written from. */
  lemma RowLineRoundTrip(row: FinalLeaderboardRow)
    ensures var f := Split(RowLine(row), '\t');
      && f == RowFields(row)
      && ParseInt(f[0]) == row.rank
      && |f[1]| > 5 && f[1][..5] == "Slot " && ParseInt(f[1][5..]) == row.slotNo
      && (f[2] == "W" <==> row.win) && (!row.win ==> f[2] == "-")
      && ParseInt(f[3]) == row.totalKills
      && ParseInt(f[4]) == row.killPoints
      && ParseInt(f[5]) == row.positionPoints
      && ParseInt(f[6]) == row.totalPoints
  {
    FieldsPlain(row);
    SplitJoin(RowFields(row), '\t');
    IntToStringRoundTrip(row.rank);
    TeamNameRoundTrip(row.slotNo);
    IntToStringRoundTrip(row.totalKills);
    IntToStringRoundTrip(row.killPoints);
    IntToStringRoundTrip(row.positionPoints);
    IntToStringRoundTrip(row.totalPoints);
  }

  /** The header line, without its newline. */
  const HeaderLine: string := "RANK\tTEAM/SLOT\tWIN\tKILLS\tK-PTS\tP-PTS\tTOTAL"

  /** The header as the clipboard text starts: the header line and a newline. */
  const Header: string := HeaderLine + "\n"

  lemma HeaderText()
    ensures Header == "RANK\tTEAM/SLOT\tWIN\tKILLS\tK-PTS\tP-PTS\tTOTAL\n"
  {
  }

  /** `data.map(row => ...)`: one line per row, in board order. */
  function RowLines(data: seq<FinalLeaderboardRow>): (lines: seq<string>)
    ensures |lines| == |data|
    ensures forall i :: 0 <= i < |data| ==> lines[i] == RowLine(data[i])
  {
    if data == [] then [] else [RowLine(data[0])] + RowLines(data[1..])
  }

  /** The whole clipboard text: the header with its newline, then the row
      lines joined by newlines (no newline after the last). */
  function CopyText(data: seq<FinalLeaderboardRow>): string {
    Header + Join(RowLines(data), '\n')
  }

  /** The column names of the header. */
  const Columns: seq<string> := ["RANK", "TEAM/SLOT", "WIN", "KILLS", "K-PTS", "P-PTS", "TOTAL"]

  /** Adding a part at the end adds a separator and that part. */
  lemma {:induction false} JoinSnoc(parts: seq<string>, q: string, sep: char)
    requires |parts| >= 1
    ensures Join(parts + [q], sep) == Join(parts, sep) + [sep] + q
  {
    if |parts| > 1 {
      assert (parts + [q])[1..] == parts[1..] + [q];
      JoinSnoc(parts[1..], q, sep);
    }
  }

  lemma HeaderFirstColumns()
    ensures Join(["RANK", "TEAM/SLOT", "WIN", "KILLS"], '\t') == "RANK\tTEAM/SLOT\tWIN\tKILLS"
  {
    JoinSnoc(["RANK"], "TEAM/SLOT", '\t');
    assert ["RANK"] + ["TEAM/SLOT"] == ["RANK", "TEAM/SLOT"];
    assert "RANK" + ['\t'] + "TEAM/SLOT" == "RANK\tTEAM/SLOT";
    JoinSnoc(["RANK", "TEAM/SLOT"], "WIN", '\t');
    assert ["RANK", "TEAM/SLOT"] + ["WIN"] == ["RANK", "TEAM/SLOT", "WIN"];
    assert "RANK\tTEAM/SLOT" + ['\t'] + "WIN" == "RANK\tTEAM/SLOT\tWIN";
    JoinSnoc(["RANK", "TEAM/SLOT", "WIN"], "KILLS", '\t');
    assert ["RANK", "TEAM/SLOT", "WIN"] + ["KILLS"] == ["RANK", "TEAM/SLOT", "WIN", "KILLS"];
    assert "RANK\tTEAM/SLOT\tWIN" + ['\t'] + "KILLS" == "RANK\tTEAM/SLOT\tWIN\tKILLS";
  }

  /** The header line is the column names joined by tabs. */
  lemma HeaderIsJoin()
    ensures Join(Columns, '\t') == HeaderLine
  {
    HeaderFirstColumns();
    JoinSnoc(["RANK", "TEAM/SLOT", "WIN", "KILLS"], "K-PTS", '\t');
    assert ["RANK", "TEAM/SLOT", "WIN", "KILLS"] + ["K-PTS"] == ["RANK", "TEAM/SLOT", "WIN", "KILLS", "K-PTS"];
    assert "RANK\tTEAM/SLOT\tWIN\tKILLS" + ['\t'] + "K-PTS" == "RANK\tTEAM/SLOT\tWIN\tKILLS\tK-PTS";
    JoinSnoc(["RANK", "TEAM/SLOT", "WIN", "KILLS", "K-PTS"], "P-PTS", '\t');
    assert ["RANK", "TEAM/SLOT", "WIN", "KILLS", "K-PTS"] + ["P-PTS"] == ["RANK", "TEAM/SLOT", "WIN", "KILLS", "K-PTS", "P-PTS"];
    assert "RANK\tTEAM/SLOT\tWIN\tKILLS\tK-PTS" + ['\t'] + "P-PTS" == "RANK\tTEAM/SLOT\tWIN\tKILLS\tK-PTS\tP-PTS";
    JoinSnoc(["RANK", "TEAM/SLOT", "WIN", "KILLS", "K-PTS", "P-PTS"], "TOTAL", '\t');
    assert ["RANK", "TEAM/SLOT", "WIN", "KILLS", "K-PTS", "P-PTS"] + ["TOTAL"] == ["RANK", "TEAM/SLOT", "WIN", "KILLS", "K-PTS", "P-PTS", "TOTAL"];
    assert "RANK\tTEAM/SLOT\tWIN\tKILLS\tK-PTS\tP-PTS" + ['\t'] + "TOTAL" == "RANK\tTEAM/SLOT\tWIN\tKILLS\tK-PTS\tP-PTS\tTOTAL";
  }

  /** The header splits at its tabs into the seven column names, in the
      order the rows fill them, and is a single line. */
  lemma HeaderColumns()
    ensures Split(HeaderLine, '\t') == Columns
    ensures '\n' !in HeaderLine
  {
    HeaderIsJoin();
    assert forall i | 0 <= i < |Columns| :: '\t' !in Columns[i] && '\n' !in Columns[i];
    SplitJoin(Columns, '\t');
    JoinAvoids(Columns, '\t', '\n');
  }

  /** The copied text of a non-empty board is the header line and then one
      line per row, in board order. */
  lemma CopyTextLines(data: seq<FinalLeaderboardRow>)
    requires |data| >= 1
    ensures Split(CopyText(data), '\n') == [HeaderLine] + RowLines(data)
    ensures |Split(CopyText(data), '\n')| == |data| + 1
  {
    var lines := RowLines(data);
    forall i | 0 <= i < |lines| ensures '\n' !in lines[i] {
      RowLinePlain(data[i]);
    }
    SplitJoin(lines, '\n');
    HeaderColumns();
    assert CopyText(data) == HeaderLine + ['\n'] + Join(lines, '\n');
    SplitAtFirst(HeaderLine, '\n', Join(lines, '\n'));
  }
}
