/** Event aggregation (src/aggregate.cpp): reading an event row, replaying
    an event backwards onto the record table, and merging the $UsnJrnl and
    $LogFile event streams into one ordered, partly anchored timeline. */
module Aggregate {
  import opened Common
  import opened Files
  import opened HelperFunctions

  // ---------------------------------------------------------------------
  // Event::init

  /** sqlite3_column_text: a text column, or NULL. */
  type Text = Option<string>

  /** textToString: NULL reads as the empty string. */
  function TextToString(text: Text): (s: string)
    ensures text.None? ==> s == ""
    ensures text.Some? ==> s == text.value
  {
    match text
    case None => ""
    case Some(t) => t
  }

  /** One row of the events table, column by column. */
  datatype EventRow = EventRow(
    Id: int, Order: int, Record: int, Parent: int, PreviousParent: int, UsnLsn: int,
    Timestamp: Text, Name: Text, PreviousName: Text,
    Type: int, Source: int, IsEmbedded: int, Offset: int,
    Created: Text, Modified: Text, Comment: Text, Snapshot: Text, Volume: Text)

  datatype Event = Event(
    Id: int, Order: int, Record: int, Parent: int, PreviousParent: int, UsnLsn: int,
    Timestamp: string, Name: string, PreviousName: string,
    Type: int, Source: int, IsEmbedded: int, Offset: int,
    Created: string, Modified: string, Comment: string, Snapshot: string, Volume: string,
    IsAnchor: bool)

  /** Event::init: the row's columns, with an unchanged parent recorded as
      -1 and an unchanged name as "", and not anchored. */
  function EventInit(row: EventRow): (e: Event)
    ensures e.Record == row.Record && e.Parent == row.Parent && e.Type == row.Type
    ensures e.Name == TextToString(row.Name) && e.Timestamp == TextToString(row.Timestamp)
    ensures !e.IsAnchor
  {
    var prevParent := if row.PreviousParent == row.Parent then -1 else row.PreviousParent;
    var name := TextToString(row.Name);
    var prevName := TextToString(row.PreviousName);
    Event(row.Id, row.Order, row.Record, row.Parent, prevParent, row.UsnLsn,
          TextToString(row.Timestamp), name, if prevName == name then "" else prevName,
          row.Type, row.Source, row.IsEmbedded, row.Offset,
          TextToString(row.Created), TextToString(row.Modified), TextToString(row.Comment),
          TextToString(row.Snapshot), TextToString(row.Volume), false)
  }

  /** After init the previous parent and name record a change or nothing:
      they equal the current ones only in the degenerate -1 / "" case, and
      a genuine change is kept as it was read. */
  lemma InitRecordsChangesOnly(row: EventRow)
    ensures var e := EventInit(row);
      && (e.PreviousParent == e.Parent ==> e.Parent == -1)
      && (e.PreviousName == e.Name ==> e.Name == "")
      && (row.PreviousParent != row.Parent ==> e.PreviousParent == row.PreviousParent)
      && (TextToString(row.PreviousName) != TextToString(row.Name) ==> e.PreviousName == TextToString(row.PreviousName))
      && (row.PreviousParent == row.Parent ==> e.PreviousParent == -1)
      && (TextToString(row.PreviousName) == TextToString(row.Name) ==> e.PreviousName == "")
  {
  }

  /** The row an event would be stored back as. */
  function ToRow(e: Event): EventRow
  {
    EventRow(e.Id, e.Order, e.Record, e.Parent, e.PreviousParent, e.UsnLsn,
             Some(e.Timestamp), Some(e.Name), Some(e.PreviousName),
             e.Type, e.Source, e.IsEmbedded, e.Offset,
             Some(e.Created), Some(e.Modified), Some(e.Comment), Some(e.Snapshot), Some(e.Volume))
  }

  /** Reading is a normalisation: storing an event and reading it again
      gives the same event. */
  lemma InitIdempotent(row: EventRow)
    ensures EventInit(ToRow(EventInit(row))) == EventInit(row)
  {
    InitRecordsChangesOnly(row);
  }

  // ---------------------------------------------------------------------
  // Event::updateRecords

  /** Event::updateRecords: replay the event backwards onto the record
      table. A delete restores the file, a move restores the old parent
      and a rename the old name; a create and an unknown type change
      nothing. Indexing outside the table is undefined in the source and
      gives None here. */
  function UpdateRecords(e: Event, records: seq<File>): (r: Option<seq<File>>)
  {
    if e.Type == TYPE_DELETE then
      if e.Record < 0 then Some(records)
      else if e.Record >= |records| then None
      else Some(records[e.Record := MakeFile(e.Name, e.Record, e.Parent, e.Timestamp)])
    else if e.Type == TYPE_MOVE then
      if e.IsEmbedded != 0 then Some(records)
      else if !(0 <= e.Record < |records|) then None
      else Some(records[e.Record := records[e.Record].(ParRecordNo := U32(e.PreviousParent))])
    else if e.Type == TYPE_RENAME then
      if e.IsEmbedded != 0 || e.PreviousName == "" then Some(records)
      else if !(0 <= e.Record < |records|) then None
      else Some(records[e.Record := records[e.Record].(Name := e.PreviousName)])
    else Some(records)
  }

  /** Only the event's own entry may change, and only in the field its
      type names; the table keeps its size. */
  lemma UpdateRecordsFrame(e: Event, records: seq<File>)
    requires UpdateRecords(e, records).Some?
    ensures var r := UpdateRecords(e, records).value;
      && |r| == |records|
      && (forall k :: 0 <= k < |records| && k != e.Record ==> r[k] == records[k])
      && (e.Type != TYPE_DELETE && e.Type != TYPE_MOVE && e.Type != TYPE_RENAME ==> r == records)
      && (e.Type == TYPE_MOVE && 0 <= e.Record < |records| ==>
            r[e.Record].Name == records[e.Record].Name && r[e.Record].Valid == records[e.Record].Valid)
      && (e.Type == TYPE_RENAME && 0 <= e.Record < |records| ==>
            r[e.Record].ParRecordNo == records[e.Record].ParRecordNo && r[e.Record].Valid == records[e.Record].Valid)
  {
  }

  /** What each type does to its entry. */
  lemma UpdateRecordsEffect(e: Event, records: seq<File>)
    ensures e.Type == TYPE_DELETE && 0 <= e.Record < |records| ==>
      UpdateRecords(e, records) == Some(records[e.Record := MakeFile(e.Name, e.Record, e.Parent, e.Timestamp)])
    ensures e.Type == TYPE_DELETE && 0 <= e.Record < TWO_32 && e.Record < |records| ==>
      var f := UpdateRecords(e, records).value[e.Record];
      f.Valid && f.Name == e.Name && f.RecordNo == e.Record && f.Timestamp == e.Timestamp
    ensures e.Type == TYPE_CREATE ==> UpdateRecords(e, records) == Some(records)
    ensures e.Type == TYPE_MOVE && e.IsEmbedded == 0 && 0 <= e.Record < |records| ==>
      UpdateRecords(e, records).value[e.Record].ParRecordNo == U32(e.PreviousParent)
    ensures e.Type == TYPE_MOVE && e.IsEmbedded != 0 ==> UpdateRecords(e, records) == Some(records)
    ensures e.Type == TYPE_RENAME && e.IsEmbedded == 0 && e.PreviousName != "" && 0 <= e.Record < |records| ==>
      UpdateRecords(e, records).value[e.Record].Name == e.PreviousName
    ensures e.Type == TYPE_RENAME && (e.IsEmbedded != 0 || e.PreviousName == "") ==>
      UpdateRecords(e, records) == Some(records)
  {
  }

  /** A move event read with an unchanged parent carries -1, and replaying
      it sets the parent to 0xFFFFFFFF, the `unsigned int` image of -1. */
  lemma MoveWithoutParentChange(row: EventRow, records: seq<File>)
    requires row.Type == TYPE_MOVE && row.IsEmbedded == 0 && row.PreviousParent == row.Parent
    requires 0 <= row.Record < |records|
    ensures UpdateRecords(EventInit(row), records).value[row.Record].ParRecordNo == TWO_32 - 1
  {
  }

  /** The events replayed one after the other, in the order written. */
  function Replay(records: seq<File>, events: seq<Event>): (r: Option<seq<File>>)
    decreases |events|
  {
    if |events| == 0 then Some(records)
    else match UpdateRecords(events[0], records)
      case None => None
      case Some(next) => Replay(next, events[1..])
  }

  /** One more event replayed onto a table, if the table is still
      defined. */
  function Then(recs: Option<seq<File>>, e: Event): Option<seq<File>>
  {
    match recs
    case None => None
    case Some(r) => UpdateRecords(e, r)
  }

  lemma {:induction false} ReplayAppend(records: seq<File>, events: seq<Event>, e: Event)
    ensures Replay(records, events + [e]) == Then(Replay(records, events), e)
    decreases |events|
  {
    if |events| == 0 {
      assert events + [e] == [e];
      assert [e][1..] == [];
    } else {
      assert (events + [e])[1..] == events[1..] + [e];
      match UpdateRecords(events[0], records)
      case None =>
      case Some(next) => ReplayAppend(next, events[1..], e);
    }
  }

  lemma EventsOfAppend(out: seq<Written>, w: Written)
    ensures EventsOf(out + [w]) == EventsOf(out) + [w.event]
  {
  }

  // ---------------------------------------------------------------------
  // outputEvents

  /** Where a written event came from: the i-th row of the journal stream
      or of the log stream. */
  datatype Origin = FromUsn(i: nat) | FromLog(i: nat)

  datatype Written = Written(event: Event, origin: Origin)

  /** The number of journal events among the written ones. */
  function CountUsn(out: seq<Written>): (n: nat)
    ensures n <= |out|
    decreases |out|
  {
    if |out| == 0 then 0
    else CountUsn(out[..|out| - 1]) + (if out[|out| - 1].origin.FromUsn? then 1 else 0)
  }

  /** The stream positions of the journal (fromUsn) or log entries among
      the written ones, in the order they were written. */
  function Positions(out: seq<Written>, fromUsn: bool): (ps: seq<nat>)
    decreases |out|
  {
    if |out| == 0 then []
    else
      var w := out[|out| - 1];
      Positions(out[..|out| - 1], fromUsn) + (if w.origin.FromUsn? == fromUsn then [w.origin.i] else [])
  }

  /** 0, 1, ..., n - 1. */
  function Upto(n: nat): (r: seq<nat>)
    ensures |r| == n && forall i :: 0 <= i < n ==> r[i] == i
  {
    seq(n, i requires 0 <= i < n => i)
  }

  /** Each entry takes the next position of its stream. */
  predicate NextOfStream(out: seq<Written>, k: nat)
    requires k < |out|
  {
    var ub := CountUsn(out[..k]);
    match out[k].origin
    case FromUsn(i) => i == ub
    case FromLog(i) => i == k - ub
  }

  /** If each entry takes the next position of its stream, the journal
      positions written are 0, 1, ... in order, and so are the log
      positions: every row is written exactly once, in stream order. */
  lemma {:induction false} PositionsAreConsecutive(out: seq<Written>)
    requires forall k :: 0 <= k < |out| ==> NextOfStream(out, k)
    ensures Positions(out, true) == Upto(CountUsn(out))
    ensures Positions(out, false) == Upto(|out| - CountUsn(out))
    decreases |out|
  {
    if |out| > 0 {
      var n := |out| - 1;
      var init := out[..n];
      forall k | 0 <= k < |init|
        ensures NextOfStream(init, k)
      {
        assert NextOfStream(out, k);
        assert init[..k] == out[..k];
      }
      PositionsAreConsecutive(init);
      assert NextOfStream(out, n);
      assert out[..n] == init;
      var c := CountUsn(init);
      assert Upto(c) + [c] == Upto(c + 1);
      assert Upto(n - c) + [n - c] == Upto(n - c + 1);
    }
  }

  /** The rule for the k-th written event: its order is count + k + 1; a
      journal event is the next unwritten journal row and is anchored; a
      log event is the next unwritten log row, anchored exactly when it is
      a create written while journal rows remain. A journal event is
      written while a log row waits only when that row is a create with a
      strictly earlier timestamp; an anchored log event's timestamp is not
      earlier than the waiting journal row's. */
  predicate EntryOk(usn: seq<Event>, log: seq<Event>, out: seq<Written>, k: nat, count: int)
    requires k < |out|
  {
    var w := out[k];
    var ub := CountUsn(out[..k]);
    var lb := k - ub;
    var order := count + k + 1;
    match w.origin
    case FromUsn(i) =>
      i == ub && i < |usn| && w.event == usn[i].(Order := order, IsAnchor := true) &&
      (lb < |log| ==> log[lb].Type == TYPE_CREATE && StrLess(log[lb].Timestamp, usn[i].Timestamp))
    case FromLog(i) =>
      i == lb && i < |log| &&
      w.event == log[i].(Order := order, IsAnchor := log[i].Type == TYPE_CREATE && ub < |usn|) &&
      (w.event.IsAnchor ==> !StrLess(log[i].Timestamp, usn[ub].Timestamp))
  }

  /** The state of the merge after writing ui journal and li log events. */
  predicate Inv(usn: seq<Event>, log: seq<Event>, out: seq<Written>, count: int, ui: nat, li: nat)
  {
    ui <= |usn| && li <= |log| && |out| == ui + li && CountUsn(out) == ui &&
    (forall k :: 0 <= k < |out| ==> EntryOk(usn, log, out, k, count))
  }

  lemma PrefixOfAppend<T>(out: seq<T>, w: T, k: nat)
    requires k <= |out|
    ensures (out + [w])[..k] == out[..k]
  {
  }

  /** Appending keeps the rule for the entries already written. */
  lemma AppendKeepsEntries(usn: seq<Event>, log: seq<Event>, out: seq<Written>, w: Written, count: int)
    requires forall k :: 0 <= k < |out| ==> EntryOk(usn, log, out, k, count)
    ensures forall k :: 0 <= k < |out| ==> EntryOk(usn, log, out + [w], k, count)
  {
    forall k | 0 <= k < |out|
      ensures EntryOk(usn, log, out + [w], k, count)
    {
      assert EntryOk(usn, log, out, k, count);
      PrefixOfAppend(out, w, k);
      assert (out + [w])[k] == out[k];
    }
  }

  /** writeAndStep for the next journal row. */
  method PushUsn(usn: seq<Event>, log: seq<Event>, out: seq<Written>, count: int, ui: nat, li: nat, order: int,
                 records: seq<File>, recs: Option<seq<File>>)
    returns (out': seq<Written>, order': int, recs': Option<seq<File>>)
    requires Inv(usn, log, out, count, ui, li) && order == count + |out|
    requires recs == Replay(records, EventsOf(out))
    requires ui < |usn|
    requires li < |log| ==> log[li].Type == TYPE_CREATE && StrLess(log[li].Timestamp, usn[ui].Timestamp)
    ensures Inv(usn, log, out', count, ui + 1, li) && order' == count + |out'|
    ensures recs' == Replay(records, EventsOf(out'))
    ensures out' == out + [out'[|out|]] && out'[|out|].origin == FromUsn(ui)
  {
    order' := order + 1;
    var w := Written(usn[ui].(Order := order', IsAnchor := true), FromUsn(ui));
    out' := out + [w];
    AppendKeepsEntries(usn, log, out, w, count);
    PrefixOfAppend(out, w, |out|);
    assert out'[..|out|] == out;
    assert EntryOk(usn, log, out', |out|, count);
    recs' := Then(recs, w.event);
    EventsOfAppend(out, w);
    ReplayAppend(records, EventsOf(out), w.event);
  }

  /** writeAndStep for the next log row, anchored or not as the caller
      decided. */
  method PushLog(usn: seq<Event>, log: seq<Event>, out: seq<Written>, count: int, ui: nat, li: nat, order: int,
                 records: seq<File>, recs: Option<seq<File>>, anchor: bool)
    returns (out': seq<Written>, order': int, recs': Option<seq<File>>)
    requires Inv(usn, log, out, count, ui, li) && order == count + |out|
    requires recs == Replay(records, EventsOf(out))
    requires li < |log|
    requires anchor == (log[li].Type == TYPE_CREATE && ui < |usn|)
    requires anchor ==> !StrLess(log[li].Timestamp, usn[ui].Timestamp)
    ensures Inv(usn, log, out', count, ui, li + 1) && order' == count + |out'|
    ensures recs' == Replay(records, EventsOf(out'))
    ensures out' == out + [out'[|out|]] && out'[|out|].origin == FromLog(li)
  {
    order' := order + 1;
    var w := Written(log[li].(Order := order', IsAnchor := anchor), FromLog(li));
    out' := out + [w];
    AppendKeepsEntries(usn, log, out, w, count);
    PrefixOfAppend(out, w, |out|);
    assert out'[..|out|] == out;
    assert EntryOk(usn, log, out', |out|, count);
    recs' := Then(recs, w.event);
    EventsOfAppend(out, w);
    ReplayAppend(records, EventsOf(out), w.event);
  }

  /** outputEvents over the two selected streams (each already read
      through Event::init, in the order the selects return them), starting
      from the volume's event count. Returns the written events, the new
      count, and the record table after replaying each written event. */
  method OutputEvents(usn: seq<Event>, log: seq<Event>, count: int, records: seq<File>)
    returns (out: seq<Written>, order: int, recs: Option<seq<File>>)
    ensures |out| == |usn| + |log| && order == count + |usn| + |log|
    ensures CountUsn(out) == |usn|
    ensures forall k :: 0 <= k < |out| ==> EntryOk(usn, log, out, k, count)
    ensures Positions(out, true) == Upto(|usn|) && Positions(out, false) == Upto(|log|)
    ensures recs == Replay(records, EventsOf(out))
  {
    out := [];
    order := count;
    recs := Some(records);
    var ui, li := 0, 0;

    // Log events before the first create.
    while li < |log|
      invariant Inv(usn, log, out, count, ui, li) && order == count + |out|
      invariant recs == Replay(records, EventsOf(out)) && ui == 0
    {
      if log[li].Type == TYPE_CREATE {
        break;
      }
      out, order, recs := PushLog(usn, log, out, count, ui, li, order, records, recs, false);
      li := li + 1;
    }

    while ui < |usn| && li < |log|
      invariant Inv(usn, log, out, count, ui, li) && order == count + |out|
      invariant recs == Replay(records, EventsOf(out))
      invariant li < |log| ==> log[li].Type == TYPE_CREATE
    {
      if StrLess(log[li].Timestamp, usn[ui].Timestamp) {
        out, order, recs := PushUsn(usn, log, out, count, ui, li, order, records, recs);
        ui := ui + 1;
      } else {
        out, order, recs := PushLog(usn, log, out, count, ui, li, order, records, recs, true);
        li := li + 1;
        while li < |log|
          invariant Inv(usn, log, out, count, ui, li) && order == count + |out|
          invariant recs == Replay(records, EventsOf(out))
        {
          if log[li].Type == TYPE_CREATE {
            break;
          }
          out, order, recs := PushLog(usn, log, out, count, ui, li, order, records, recs, false);
          li := li + 1;
        }
      }
    }

    while ui < |usn|
      invariant Inv(usn, log, out, count, ui, li) && order == count + |out|
      invariant recs == Replay(records, EventsOf(out))
      invariant ui < |usn| ==> li == |log|
    {
      out, order, recs := PushUsn(usn, log, out, count, ui, li, order, records, recs);
      ui := ui + 1;
    }

    while li < |log|
      invariant Inv(usn, log, out, count, ui, li) && order == count + |out|
      invariant recs == Replay(records, EventsOf(out)) && ui == |usn|
    {
      out, order, recs := PushLog(usn, log, out, count, ui, li, order, records, recs, false);
      li := li + 1;
    }
    forall k | 0 <= k < |out|
      ensures NextOfStream(out, k)
    {
      assert EntryOk(usn, log, out, k, count);
    }
    PositionsAreConsecutive(out);
  }

  /** Where both streams still have rows, the next event comes from the
      journal exactly when the waiting log row is a create whose timestamp
      is strictly earlier; a waiting non-create log row always goes first. */
  lemma UsnFirstIff(usn: seq<Event>, log: seq<Event>, out: seq<Written>, k: nat, count: int)
    requires k < |out| && EntryOk(usn, log, out, k, count)
    requires CountUsn(out[..k]) < |usn| && k - CountUsn(out[..k]) < |log|
    ensures var ub := CountUsn(out[..k]);
      var lb := k - ub;
      out[k].origin.FromUsn? <==>
        log[lb].Type == TYPE_CREATE && StrLess(log[lb].Timestamp, usn[ub].Timestamp)
  {
  }

  /** Two outputs that follow the rule at the same position after the same
      prefix write the same event there. */
  lemma NextEntryDetermined(usn: seq<Event>, log: seq<Event>, a: seq<Written>, b: seq<Written>, k: nat, count: int)
    requires k < |a| && k < |b| && a[..k] == b[..k]
    requires EntryOk(usn, log, a, k, count) && EntryOk(usn, log, b, k, count)
    ensures a[k] == b[k]
  {
    assert CountUsn(a[..k]) == CountUsn(b[..k]);
  }

  lemma {:induction false} PrefixDetermined(usn: seq<Event>, log: seq<Event>, a: seq<Written>, b: seq<Written>, n: nat, count: int)
    requires n <= |a| && n <= |b|
    requires forall k :: 0 <= k < |a| ==> EntryOk(usn, log, a, k, count)
    requires forall k :: 0 <= k < |b| ==> EntryOk(usn, log, b, k, count)
    ensures a[..n] == b[..n]
  {
    if n > 0 {
      PrefixDetermined(usn, log, a, b, n - 1, count);
      NextEntryDetermined(usn, log, a, b, n - 1, count);
      assert a[..n] == a[..n - 1] + [a[n - 1]];
      assert b[..n] == b[..n - 1] + [b[n - 1]];
    }
  }

  /** The rule fixes the merge completely: any two outputs of the same
      length that follow it at every position are equal, so the written
      order, orders and anchors are those of outputEvents and no other. */
  lemma MergeIsDetermined(usn: seq<Event>, log: seq<Event>, a: seq<Written>, b: seq<Written>, count: int)
    requires |a| == |b|
    requires forall k :: 0 <= k < |a| ==> EntryOk(usn, log, a, k, count)
    requires forall k :: 0 <= k < |b| ==> EntryOk(usn, log, b, k, count)
    ensures a == b
  {
    PrefixDetermined(usn, log, a, b, |a|, count);
    assert a == a[..|a|] && b == b[..|b|];
  }

  function EventsOf(out: seq<Written>): (events: seq<Event>)
    ensures |events| == |out|
    ensures forall k :: 0 <= k < |out| ==> events[k] == out[k].event
  {
    seq(|out|, k requires 0 <= k < |out| => out[k].event)
  }
}
