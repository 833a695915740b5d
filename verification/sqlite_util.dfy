/** Column lists of the SQLite schema (src/sqlite_util.cpp): getColList
    renders a range of (name, type) columns as a table definition, a name
    list or a list of placeholders, joined by ", ". */
module SqliteUtil {

  /** One column: its name and its SQL type. */
  type Column = (string, string)

  const SEPARATOR := ", "

  /** The text one column contributes in the given mode: 0 the definition
      "name type", 1 the name, 2 a "?" placeholder, and nothing in any
      other mode (the switch has no default). */
  function Item(c: Column, mode: int): string
  {
    if mode == 0 then c.0 + " " + c.1
    else if mode == 1 then c.0
    else if mode == 2 then "?"
    else ""
  }

  function Items(cols: seq<Column>, mode: int): (items: seq<string>)
    ensures |items| == |cols|
    ensures forall k :: 0 <= k < |cols| ==> items[k] == Item(cols[k], mode)
  {
    seq(|cols|, k requires 0 <= k < |cols| => Item(cols[k], mode))
  }

  /** The items with ", " between neighbours. */
  function Join(items: seq<string>): string
  {
    if |items| == 0 then ""
    else if |items| == 1 then items[0]
    else items[0] + SEPARATOR + Join(items[1..])
  }

  lemma {:induction false} JoinAppend(items: seq<string>, x: string)
    requires |items| > 0
    ensures Join(items + [x]) == Join(items) + SEPARATOR + x
  {
    if |items| == 1 {
      assert (items + [x])[1..] == [x];
    } else {
      assert (items + [x])[1..] == items[1..] + [x];
      JoinAppend(items[1..], x);
    }
  }

  /** getColList(first, last, mode): the loop writes the separator before
      every item but the first. */
  method GetColList(cols: seq<Column>, mode: int) returns (s: string)
    ensures s == Join(Items(cols, mode))
  {
    s := "";
    var isFirst := true;
    var k := 0;
    while k < |cols|
      invariant 0 <= k <= |cols|
      invariant isFirst <==> k == 0
      invariant s == Join(Items(cols[..k], mode))
    {
      if !isFirst {
        s := s + SEPARATOR;
      }
      isFirst := false;
      assert Items(cols[..k + 1], mode) == Items(cols[..k], mode) + [Item(cols[k], mode)];
      if k > 0 {
        JoinAppend(Items(cols[..k], mode), Item(cols[k], mode));
      }
      s := s + Item(cols[k], mode);
      k := k + 1;
    }
    assert cols[..k] == cols;
  }

  /** The number of occurrences of ch in s. */
  function Count(s: string, ch: char): (n: nat)
    ensures n <= |s|
  {
    if |s| == 0 then 0 else (if s[0] == ch then 1 else 0) + Count(s[1..], ch)
  }

  lemma {:induction false} CountConcat(a: string, b: string, ch: char)
    ensures Count(a + b, ch) == Count(a, ch) + Count(b, ch)
  {
    if |a| > 0 {
      assert (a + b)[1..] == a[1..] + b;
      CountConcat(a[1..], b, ch);
    } else {
      assert a + b == b;
    }
  }

  /** The occurrences of ch over all items. */
  function CountAll(items: seq<string>, ch: char): nat
  {
    if |items| == 0 then 0 else Count(items[0], ch) + CountAll(items[1..], ch)
  }

  /** The separators are counted exactly n - 1 times: a joined list holds
      the items' own occurrences of ch plus one per separator that contains
      it. */
  lemma {:induction false} CountJoin(items: seq<string>, ch: char)
    requires |items| > 0
    ensures Count(Join(items), ch) == CountAll(items, ch) + (|items| - 1) * Count(SEPARATOR, ch)
  {
    if |items| > 1 {
      var c := Count(SEPARATOR, ch);
      var rest := Join(items[1..]);
      CountJoin(items[1..], ch);
      CountConcat(items[0], SEPARATOR, ch);
      CountConcat(items[0] + SEPARATOR, rest, ch);
      assert Join(items) == items[0] + SEPARATOR + rest;
      MulStep(|items|, c);
    }
  }

  lemma MulStep(n: int, c: int)
    ensures (n - 1) * c == (n - 2) * c + c
  {
  }

  /** The length of a joined list: the items plus two characters per
      separator, so there is none leading or trailing. */
  lemma {:induction false} JoinLength(items: seq<string>)
    requires |items| > 0
    ensures |Join(items)| == TotalLength(items) + 2 * (|items| - 1)
  {
    if |items| > 1 {
      JoinLength(items[1..]);
    }
  }

  function TotalLength(items: seq<string>): nat
  {
    if |items| == 0 then 0 else |items[0]| + TotalLength(items[1..])
  }

  /** A placeholder list has one "?" per column. */
  lemma {:induction false} PlaceholdersPerColumn(cols: seq<Column>)
    ensures Count(Join(Items(cols, 2)), '?') == |cols|
  {
    if |cols| > 0 {
      CountJoin(Items(cols, 2), '?');
      AllPlaceholders(cols);
    }
  }

  lemma {:induction false} AllPlaceholders(cols: seq<Column>)
    ensures CountAll(Items(cols, 2), '?') == |cols|
  {
    if |cols| > 0 {
      assert Items(cols, 2)[1..] == Items(cols[1..], 2);
      AllPlaceholders(cols[1..]);
    }
  }

  /** In a mode without a branch every item is empty, so the list is the
      n - 1 separators alone. */
  lemma {:induction false} OtherModeIsSeparators(cols: seq<Column>, mode: int)
    requires mode != 0 && mode != 1 && mode != 2
    ensures Join(Items(cols, mode)) == Separators(|cols|)
  {
    if |cols| > 1 {
      assert Items(cols, mode)[1..] == Items(cols[1..], mode);
      OtherModeIsSeparators(cols[1..], mode);
    }
  }

  /** n - 1 separators (none for n <= 1). */
  function Separators(n: nat): string
  {
    if n <= 1 then "" else SEPARATOR + Separators(n - 1)
  }

  /** A name list has one ',' fewer than it has columns, when no name
      contains a comma. */
  lemma {:induction false} NamesCommaCount(cols: seq<Column>)
    requires |cols| > 0
    requires forall k :: 0 <= k < |cols| ==> Count(cols[k].0, ',') == 0
    ensures Count(Join(Items(cols, 1)), ',') == |cols| - 1
  {
    CountJoin(Items(cols, 1), ',');
    NoCommaInNames(cols);
  }

  lemma {:induction false} NoCommaInNames(cols: seq<Column>)
    requires forall k :: 0 <= k < |cols| ==> Count(cols[k].0, ',') == 0
    ensures CountAll(Items(cols, 1), ',') == 0
  {
    if |cols| > 0 {
      assert Items(cols, 1)[1..] == Items(cols[1..], 1);
      NoCommaInNames(cols[1..]);
    }
  }

  // ---------------------------------------------------------------------
  // The tables

  const EventColumns: seq<Column> := [
    ("id", "integer primary key autoincrement"),
    ("position", "int default -1"),
    ("MFTRecNo", "int"),
    ("ParRecNo", "int"),
    ("PreviousParRecNo", "int"),
    ("USN_LSN", "int"),
    ("Timestamp", "text"),
    ("FileName", "text"),
    ("PreviousFileName", "text"),
    ("EventType", "int"),
    ("EventSource", "int"),
    ("IsEmbedded", "int"),
    ("Offset", "int"),
    ("Created", "text"),
    ("Modified", "text"),
    ("Comment", "text"),
    ("Snapshot", "text"),
    ("Volume", "text")]

  const LogColumns: seq<Column> := [
    ("CurrentLSN", "int"),
    ("PrevLSN", "int"),
    ("UndoLSN", "int"),
    ("ClientID", "int"),
    ("RecordType", "int"),
    ("RedoOP", "text"),
    ("UndoOP", "text"),
    ("TargetAttribute", "int"),
    ("MFTClusterIndex", "int"),
    ("Offset", "int"),
    ("Snapshot", "text"),
    ("Volume", "text")]

  const UsnColumns: seq<Column> := [
    ("MFTRecNo", "int"),
    ("ParRecNo", "int"),
    ("USN", "int"),
    ("Timestamp", "text"),
    ("Reason", "text"),
    ("FileName", "text"),
    ("PossiblePath", "text"),
    ("PossibleParPath", "text"),
    ("Offset", "int"),
    ("Snapshot", "text"),
    ("Volume", "text")]

  /** The event insert leaves out the first two columns (the id and the
      position, both filled by the database), so it names 16 columns and
      binds 16 placeholders; the log insert has 12 of each and the journal
      insert 11. */
  lemma InsertStatementsBalance()
    ensures |EventColumns[2..]| == 16 && EventColumns[2..][0].0 == "MFTRecNo"
    ensures Count(Join(Items(EventColumns[2..], 2)), '?') == 16
    ensures Count(Join(Items(LogColumns, 2)), '?') == 12
    ensures Count(Join(Items(UsnColumns, 2)), '?') == 11
    ensures |Items(EventColumns[2..], 1)| == 16
  {
    PlaceholdersPerColumn(EventColumns[2..]);
    PlaceholdersPerColumn(LogColumns);
    PlaceholdersPerColumn(UsnColumns);
  }
}
