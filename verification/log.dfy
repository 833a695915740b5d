/** The $LogFile side (src/log.cpp): op-code names, the classification of
    a log record header, and the transaction-pattern test that recognises
    create, delete, rename and move transactions. */
module Log {
  import opened Common
  import opened HelperFunctions

  // ---------------------------------------------------------------------
  // Op codes (LogOps)

  const NOOP: int := 0x00
  const COMPENSATION_LOG_RECORD: int := 0x01
  const INITIALIZE_FILE_RECORD_SEGMENT: int := 0x02
  const DEALLOCATE_FILE_RECORD_SEGMENT: int := 0x03
  const WRITE_END_OF_FILE_RECORD_SEGMENT: int := 0x04
  const CREATE_ATTRIBUTE: int := 0x05
  const DELETE_ATTRIBUTE: int := 0x06
  const UPDATE_RESIDENT_VALUE: int := 0x07
  const UPDATE_NONRESIDENT_VALUE: int := 0x08
  const UPDATE_MAPPING_PAIRS: int := 0x09
  const DELETE_DIRTY_CLUSTERS: int := 0x0A
  const SET_NEW_ATTRIBUTE_SIZES: int := 0x0B
  const ADD_INDEX_ENTRY_ROOT: int := 0x0C
  const DELETE_INDEX_ENTRY_ROOT: int := 0x0D
  const ADD_INDEX_ENTRY_ALLOCATION: int := 0x0E
  const DELETE_INDEX_ENTRY_ALLOCATION: int := 0x0F
  const SET_INDEX_ENTRY_VCN_ALLOCATION: int := 0x12
  const UPDATE_FILE_NAME_ROOT: int := 0x13
  const UPDATE_FILE_NAME_ALLOCATION: int := 0x14
  const SET_BITS_IN_NONRESIDENT_BIT_MAP: int := 0x15
  const CLEAR_BITS_IN_NONRESIDENT_BIT_MAP: int := 0x16
  const PREPARE_TRANSACTION: int := 0x19
  const COMMIT_TRANSACTION: int := 0x1A
  const FORGET_TRANSACTION: int := 0x1B
  const OPEN_NONRESIDENT_ATTRIBUTE: int := 0x1C
  const DIRTY_PAGE_TABLE_DUMP: int := 0x1F
  const TRANSACTION_TABLE_DUMP: int := 0x20
  const UPDATE_RECORD_DATA_ROOT: int := 0x21

  /** The op codes that have a name: 0x00-0x0F, 0x12-0x16, 0x19-0x1C and
      0x1F-0x21. */
  predicate IsOpCode(op: int)
  {
    (0x00 <= op <= 0x0F) || (0x12 <= op <= 0x16) || (0x19 <= op <= 0x1C) || (0x1F <= op <= 0x21)
  }

  /** decodeLogFileOpCode. */
  function DecodeLogFileOpCode(op: int): (name: string)
  {
    match op
    case 0x00 => "Noop"
    case 0x01 => "CompensationLogRecord"
    case 0x02 => "InitializeFileRecordSegment"
    case 0x03 => "DeallocateFileRecordSegment"
    case 0x04 => "WriteEndOfFileRecordSegment"
    case 0x05 => "CreateAttribute"
    case 0x06 => "DeleteAttribute"
    case 0x07 => "UpdateResidentValue"
    case 0x08 => "UpdateNonresidentValue"
    case 0x09 => "UpdateMappingPairs"
    case 0x0A => "DeleteDirtyClusters"
    case 0x0B => "SetNewAttributeSizes"
    case 0x0C => "AddIndexEntryRoot"
    case 0x0D => "DeleteIndexEntryRoot"
    case 0x0E => "AddIndexEntryAllocation"
    case 0x0F => "DeleteIndexEntryAllocation"
    case 0x12 => "SetIndexEntryVCNAllocation"
    case 0x13 => "UpdateFileNameRoot"
    case 0x14 => "UpdateFileNameAllocation"
    case 0x15 => "SetBitsInNonresidentBitMap"
    case 0x16 => "ClearBitsInNonresidentBitMap"
    case 0x19 => "PrepareTransaction"
    case 0x1A => "CommitTransaction"
    case 0x1B => "ForgetTransaction"
    case 0x1C => "OpenNonresidentAttribute"
    case 0x1F => "DirtyPageTableDump"
    case 0x20 => "TransactionTableDump"
    case 0x21 => "UpdateRecordDataRoot"
    case _ => "Invalid"
  }

  /** Exactly the listed op codes have a name; every other value, such as
      0x10, 0x11, 0x17 or 0x22, decodes as "Invalid". */
  lemma DecodeInvalidIff(op: int)
    ensures DecodeLogFileOpCode(op) == "Invalid" <==> !IsOpCode(op)
  {
    if 0x00 <= op <= 0x0F {
      assert |DecodeLogFileOpCode(op)| != |"Invalid"|;
    } else if 0x12 <= op <= 0x16 {
      assert |DecodeLogFileOpCode(op)| != |"Invalid"|;
    } else if 0x19 <= op <= 0x1C {
      assert |DecodeLogFileOpCode(op)| != |"Invalid"|;
    } else if 0x1F <= op <= 0x21 {
      assert |DecodeLogFileOpCode(op)| != |"Invalid"|;
    }
  }

  // ---------------------------------------------------------------------
  // LogRecord::init

  /** The header fields init reads before deciding. */
  function RecordType(buf: seq<Byte>): nat { Field(buf, 0x20, 4) }
  function RecordFlags(buf: seq<Byte>): nat { Field(buf, 0x28, 2) }
  function RedoOp(buf: seq<Byte>): nat { Field(buf, 0x30, 2) }
  function UndoOp(buf: seq<Byte>): nat { Field(buf, 0x32, 2) }
  function ClientDataLength(buf: seq<Byte>): nat { Field(buf, 0x18, 4) }

  const MAX_OP: nat := 0x21
  const HEADER_LENGTH: nat := 0x30

  /** LogRecord::init: -2 for slack space (record type 0) and for junk op
      codes, -1 for a record continued on the next page (flags 1), and
      otherwise the record length, the client data plus the 0x30-byte
      header. */
  function InitRecord(buf: seq<Byte>, prevHasNext: bool): (n: int)
    ensures n == -2 || n == -1 || n >= HEADER_LENGTH
  {
    if RecordType(buf) == 0 && prevHasNext then -2
    else if RecordType(buf) == 0 then -2
    else if RecordFlags(buf) == 1 then -1
    else if RedoOp(buf) > MAX_OP || UndoOp(buf) > MAX_OP then -2
    else HEADER_LENGTH + ClientDataLength(buf)
  }

  /** What init decides, by the header fields. */
  lemma InitClassifies(buf: seq<Byte>, prevHasNext: bool)
    ensures RecordType(buf) == 0 ==> InitRecord(buf, prevHasNext) == -2
    ensures InitRecord(buf, prevHasNext) == -1 <==> RecordType(buf) != 0 && RecordFlags(buf) == 1
    ensures InitRecord(buf, prevHasNext) >= 0 <==>
      RecordType(buf) != 0 && RecordFlags(buf) != 1 && RedoOp(buf) <= MAX_OP && UndoOp(buf) <= MAX_OP
    ensures InitRecord(buf, prevHasNext) >= 0 ==>
      InitRecord(buf, prevHasNext) - HEADER_LENGTH == Le(buf, 0x18, 4)
  {
    FieldExact(buf, 0x18, 4);
  }

  /** Whether the previous record ran over the page changes nothing: the
      branch that would exit the program is unreachable. */
  lemma InitIgnoresPrevHasNext(buf: seq<Byte>)
    ensures InitRecord(buf, true) == InitRecord(buf, false)
  {
  }

  /** An accepted record has op codes that name something or lie in the
      unnamed gaps below 0x22; never one beyond. */
  lemma AcceptedOpsInRange(buf: seq<Byte>, prevHasNext: bool)
    requires InitRecord(buf, prevHasNext) >= 0
    ensures RedoOp(buf) <= 0x21 && UndoOp(buf) <= 0x21
    ensures IsOpCode(RedoOp(buf)) || DecodeLogFileOpCode(RedoOp(buf)) == "Invalid"
  {
    DecodeInvalidIff(RedoOp(buf));
  }

  // ---------------------------------------------------------------------
  // LogData

  /** The transaction accumulated from consecutive log records. */
  datatype LogData = LogData(
    Record: int, Parent: int, PreviousParent: int, Offset: int,
    Lsn: nat,
    Name: string, PreviousName: string, Timestamp: string,
    Created: string, Modified: string, Comment: string,
    Snapshot: string, Volume: string,
    RedoOps: seq<int>, UndoOps: seq<int>)

  /** LogData::clearFields: ids and offset to -1, the Lsn to 0, strings
      and op lists emptied; the snapshot and volume labels are kept. */
  function ClearFields(d: LogData): (c: LogData)
    ensures c.Record == -1 && c.Parent == -1 && c.PreviousParent == -1 && c.Offset == -1
    ensures c.Lsn == 0 && c.RedoOps == [] && c.UndoOps == []
    ensures c.Name == "" && c.PreviousName == "" && c.Timestamp == ""
    ensures c.Created == "" && c.Modified == "" && c.Comment == ""
    ensures c.Snapshot == d.Snapshot && c.Volume == d.Volume
  {
    LogData(-1, -1, -1, -1, 0, "", "", "", "", "", "", d.Snapshot, d.Volume, [], [])
  }

  /** Clearing twice is clearing once, and what is cleared no longer
      depends on what was there. */
  lemma ClearFieldsIdempotent(d: LogData, e: LogData)
    ensures ClearFields(ClearFields(d)) == ClearFields(d)
    ensures d.Snapshot == e.Snapshot && d.Volume == e.Volume ==> ClearFields(d) == ClearFields(e)
  {
  }

  // ---------------------------------------------------------------------
  // transactionRunMatch

  /** The interchange rule: the index-root ops count as their allocation
      counterparts. */
  function Interchange(op: int): (r: int)
  {
    if op == ADD_INDEX_ENTRY_ROOT then ADD_INDEX_ENTRY_ALLOCATION
    else if op == DELETE_INDEX_ENTRY_ROOT then DELETE_INDEX_ENTRY_ALLOCATION
    else op
  }

  /** The (redo, undo) pairs of a run, the first |redo| of them. */
  function Run(redo: seq<int>, undo: seq<int>): (r: seq<(int, int)>)
    requires |redo| <= |undo|
    ensures |r| == |redo|
    ensures forall k :: 0 <= k < |redo| ==> r[k] == (redo[k], undo[k])
  {
    seq(|redo|, k requires 0 <= k < |redo| => (redo[k], undo[k]))
  }

  /** The run as the matcher compares it: with interchange, both ops of
      each pair are normalised; the pattern is not. */
  function Normalised(run: seq<(int, int)>, interchange: bool): (r: seq<(int, int)>)
    ensures |r| == |run|
    ensures forall k :: 0 <= k < |run| ==>
      r[k] == if interchange then (Interchange(run[k].0), Interchange(run[k].1)) else run[k]
  {
    seq(|run|, k requires 0 <= k < |run| =>
      if interchange then (Interchange(run[k].0), Interchange(run[k].1)) else run[k])
  }

  /** The declarative meaning: the pattern pairs occur, in order, among
      the (normalised) pairs of the run. */
  predicate RunMatches(redo1: seq<int>, undo1: seq<int>, redo2: seq<int>, undo2: seq<int>, interchange: bool)
    requires |redo1| <= |undo1| && |redo2| <= |undo2|
  {
    IsSubsequence(Run(redo2, undo2), Normalised(Run(redo1, undo1), interchange))
  }

  /** The matcher's scan: each pattern pair takes the first matching pair
      after the previous one. */
  function FirstMatch<T(==)>(p: seq<T>, t: seq<T>): bool
    decreases |t|
  {
    if |p| == 0 then true
    else if |t| == 0 then false
    else if p[0] == t[0] then FirstMatch(p[1..], t[1..])
    else FirstMatch(p, t[1..])
  }

  /** Taking the first match is never wrong: the greedy scan succeeds iff
      the pattern occurs in order at all. */
  lemma {:induction false} FirstMatchIsSubsequence<T>(p: seq<T>, t: seq<T>)
    ensures FirstMatch(p, t) <==> IsSubsequence(p, t)
    decreases |t|
  {
    if |p| > 0 && |t| > 0 {
      FirstMatchIsSubsequence(p[1..], t[1..]);
      FirstMatchIsSubsequence(p, t[1..]);
      if p[0] == t[0] && IsSubsequence(p, t[1..]) {
        SubsequenceDropFirst(p, t[1..]);
      }
    }
  }

  /** LogData::transactionRunMatch over (redo1, undo1), the transaction's
      ops: the outer loop walks the pattern, the inner loop resumes where
      the last match stopped and normalises each pair it reads in a copy of
      the run. */
  method TransactionRunMatch(redo1: seq<int>, undo1: seq<int>, redo2: seq<int>, undo2: seq<int>, interchange: bool)
    returns (m: bool)
    requires |redo1| <= |undo1| && |redo2| <= |undo2|
    ensures m <==> RunMatches(redo1, undo1, redo2, undo2, interchange)
  {
    ghost var p := Run(redo2, undo2);
    ghost var t := Normalised(Run(redo1, undo1), interchange);
    var r1 := redo1;
    var u1 := undo1;
    var j := 0;
    var i := 0;
    while i < |redo2|
      invariant 0 <= i <= |redo2| && 0 <= j <= |redo1|
      invariant |r1| == |redo1| && |u1| == |undo1|
      invariant forall k :: j <= k < |redo1| ==> r1[k] == redo1[k] && u1[k] == undo1[k]
      invariant FirstMatch(p, t) == FirstMatch(p[i..], t[j..])
    {
      var top := false;
      ghost var j0 := j;
      while j < |redo1| && !top
        invariant j0 <= j <= |redo1|
        invariant |r1| == |redo1| && |u1| == |undo1|
        invariant forall k :: j <= k < |redo1| ==> r1[k] == redo1[k] && u1[k] == undo1[k]
        invariant !top ==> FirstMatch(p[i..], t[j0..]) == FirstMatch(p[i..], t[j..])
        invariant top ==> FirstMatch(p[i..], t[j0..]) == FirstMatch(p[i + 1..], t[j..])
      {
        if interchange {
          if r1[j] == ADD_INDEX_ENTRY_ROOT { r1 := r1[j := ADD_INDEX_ENTRY_ALLOCATION]; }
          if r1[j] == DELETE_INDEX_ENTRY_ROOT { r1 := r1[j := DELETE_INDEX_ENTRY_ALLOCATION]; }
          if u1[j] == ADD_INDEX_ENTRY_ROOT { u1 := u1[j := ADD_INDEX_ENTRY_ALLOCATION]; }
          if u1[j] == DELETE_INDEX_ENTRY_ROOT { u1 := u1[j := DELETE_INDEX_ENTRY_ALLOCATION]; }
        }
        assert (r1[j], u1[j]) == t[j];
        ScanStep(p[i..], t[j..]);
        assert p[i..][1..] == p[i + 1..] && t[j..][1..] == t[j + 1..];
        if redo2[i] == r1[j] && undo2[i] == u1[j] {
          top := true;
        }
        j := j + 1;
      }
      if !top {
        assert t[j..] == [];
        FirstMatchIsSubsequence(p, t);
        return false;
      }
      i := i + 1;
    }
    assert p[i..] == [];
    FirstMatchIsSubsequence(p, t);
    m := true;
  }

  /** One step of the scan, unfolded. */
  lemma ScanStep<T>(p: seq<T>, t: seq<T>)
    requires |p| > 0 && |t| > 0
    ensures p[0] == t[0] ==> FirstMatch(p, t) == FirstMatch(p[1..], t[1..])
    ensures p[0] != t[0] ==> FirstMatch(p, t) == FirstMatch(p, t[1..])
  {
  }

  // ---------------------------------------------------------------------
  // Event recognition

  const CreateRedo: seq<int> := [SET_BITS_IN_NONRESIDENT_BIT_MAP, NOOP, ADD_INDEX_ENTRY_ALLOCATION,
                                  INITIALIZE_FILE_RECORD_SEGMENT, FORGET_TRANSACTION]
  const CreateUndo: seq<int> := [CLEAR_BITS_IN_NONRESIDENT_BIT_MAP, DEALLOCATE_FILE_RECORD_SEGMENT,
                                  DELETE_INDEX_ENTRY_ALLOCATION, NOOP, COMPENSATION_LOG_RECORD]
  const DeleteRedo: seq<int> := [DELETE_INDEX_ENTRY_ALLOCATION, DEALLOCATE_FILE_RECORD_SEGMENT,
                                  CLEAR_BITS_IN_NONRESIDENT_BIT_MAP, FORGET_TRANSACTION]
  const DeleteUndo: seq<int> := [ADD_INDEX_ENTRY_ALLOCATION, INITIALIZE_FILE_RECORD_SEGMENT,
                                  SET_BITS_IN_NONRESIDENT_BIT_MAP, COMPENSATION_LOG_RECORD]
  const RenameRedo: seq<int> := [DELETE_INDEX_ENTRY_ALLOCATION, DELETE_ATTRIBUTE, CREATE_ATTRIBUTE,
                                  ADD_INDEX_ENTRY_ALLOCATION, FORGET_TRANSACTION]
  const RenameUndo: seq<int> := [ADD_INDEX_ENTRY_ALLOCATION, CREATE_ATTRIBUTE, DELETE_ATTRIBUTE,
                                  DELETE_INDEX_ENTRY_ALLOCATION, COMPENSATION_LOG_RECORD]
  const WriteRedo: seq<int> := [DELETE_ATTRIBUTE, CREATE_ATTRIBUTE, SET_BITS_IN_NONRESIDENT_BIT_MAP,
                                 SET_NEW_ATTRIBUTE_SIZES, UPDATE_MAPPING_PAIRS, SET_NEW_ATTRIBUTE_SIZES,
                                 FORGET_TRANSACTION]
  const WriteUndo: seq<int> := [CREATE_ATTRIBUTE, DELETE_ATTRIBUTE, CLEAR_BITS_IN_NONRESIDENT_BIT_MAP,
                                 SET_NEW_ATTRIBUTE_SIZES, UPDATE_MAPPING_PAIRS, SET_NEW_ATTRIBUTE_SIZES,
                                 COMPENSATION_LOG_RECORD]

  /** The transaction's redo and undo lists grow together. */
  predicate Paired(d: LogData)
  {
    |d.RedoOps| == |d.UndoOps|
  }

  /** isCreateEvent, isDeleteEvent, isRenameEvent and isMoveEvent, all with
      interchange on (the default). */
  predicate IsCreateEvent(d: LogData)
    requires Paired(d)
  {
    RunMatches(d.RedoOps, d.UndoOps, CreateRedo, CreateUndo, true)
  }

  predicate IsDeleteEvent(d: LogData)
    requires Paired(d)
  {
    RunMatches(d.RedoOps, d.UndoOps, DeleteRedo, DeleteUndo, true)
  }

  predicate IsRenameEvent(d: LogData)
    requires Paired(d)
  {
    d.Name != d.PreviousName && RunMatches(d.RedoOps, d.UndoOps, RenameRedo, RenameUndo, true)
  }

  predicate IsMoveEvent(d: LogData)
    requires Paired(d)
  {
    d.Parent != d.PreviousParent && RunMatches(d.RedoOps, d.UndoOps, RenameRedo, RenameUndo, true)
  }

  /** isTransactionOver: the last redo op is ForgetTransaction and the last
      undo op is CompensationLogRecord. */
  predicate IsTransactionOver(d: LogData)
    requires |d.RedoOps| > 0 && |d.UndoOps| > 0
  {
    d.RedoOps[|d.RedoOps| - 1] == FORGET_TRANSACTION && d.UndoOps[|d.UndoOps| - 1] == COMPENSATION_LOG_RECORD
  }

  /** A rename needs a changed name and a move a changed parent; both need
      the rename pattern, so a move that keeps the name is not a rename
      and the other way round. */
  lemma RenameAndMoveShareThePattern(d: LogData)
    requires Paired(d)
    ensures IsRenameEvent(d) ==> d.Name != d.PreviousName
    ensures IsMoveEvent(d) ==> d.Parent != d.PreviousParent
    ensures IsRenameEvent(d) && d.Parent != d.PreviousParent ==> IsMoveEvent(d)
    ensures IsMoveEvent(d) && d.Name != d.PreviousName ==> IsRenameEvent(d)
  {
  }

  /** Every pattern ends with (ForgetTransaction, CompensationLogRecord),
      so a transaction that matches one contains the end-of-transaction
      pair somewhere. */
  lemma {:induction false} MatchContainsEnd(run: seq<(int, int)>, pattern: seq<(int, int)>)
    requires |pattern| > 0 && IsSubsequence(pattern, run)
    ensures pattern[|pattern| - 1] in run
    decreases |run|
  {
    if pattern[0] == run[0] && IsSubsequence(pattern[1..], run[1..]) {
      if |pattern| > 1 {
        MatchContainsEnd(run[1..], pattern[1..]);
      }
    } else {
      MatchContainsEnd(run[1..], pattern);
    }
  }

  lemma CreateNeedsEnd(d: LogData)
    requires Paired(d) && IsCreateEvent(d)
    ensures (FORGET_TRANSACTION, COMPENSATION_LOG_RECORD) in Normalised(Run(d.RedoOps, d.UndoOps), true)
  {
    var p := Run(CreateRedo, CreateUndo);
    assert p[4] == (FORGET_TRANSACTION, COMPENSATION_LOG_RECORD);
    MatchContainsEnd(Normalised(Run(d.RedoOps, d.UndoOps), true), p);
  }

  lemma DeleteNeedsEnd(d: LogData)
    requires Paired(d) && IsDeleteEvent(d)
    ensures (FORGET_TRANSACTION, COMPENSATION_LOG_RECORD) in Normalised(Run(d.RedoOps, d.UndoOps), true)
  {
    var p := Run(DeleteRedo, DeleteUndo);
    assert p[3] == (FORGET_TRANSACTION, COMPENSATION_LOG_RECORD);
    MatchContainsEnd(Normalised(Run(d.RedoOps, d.UndoOps), true), p);
  }

  /** A transaction is over exactly when its last (redo, undo) pair is the
      end-of-transaction pair, which interchange leaves alone. */
  lemma TransactionOverIff(d: LogData)
    requires Paired(d) && |d.RedoOps| > 0
    ensures IsTransactionOver(d) <==>
      Run(d.RedoOps, d.UndoOps)[|d.RedoOps| - 1] == (FORGET_TRANSACTION, COMPENSATION_LOG_RECORD)
    ensures IsTransactionOver(d) ==>
      (FORGET_TRANSACTION, COMPENSATION_LOG_RECORD) in Normalised(Run(d.RedoOps, d.UndoOps), true)
  {
    var n := |d.RedoOps| - 1;
    if IsTransactionOver(d) {
      assert Normalised(Run(d.RedoOps, d.UndoOps), true)[n] == (FORGET_TRANSACTION, COMPENSATION_LOG_RECORD);
    }
  }

  /** The delete pattern logged on its own is a finished transaction, is
      recognised as a delete, and is not taken for a create: the create
      pattern's first pair (set bits, clear bits) never occurs in it. */
  lemma DeletePatternIsDeleteOnly(d: LogData)
    requires d.RedoOps == DeleteRedo && d.UndoOps == DeleteUndo
    ensures Paired(d) && IsTransactionOver(d)
    ensures IsDeleteEvent(d) && !IsCreateEvent(d)
  {
    var t := Normalised(Run(DeleteRedo, DeleteUndo), true);
    assert t == Run(DeleteRedo, DeleteUndo);
    SubsequenceOfSelf(t);
    var p := Run(CreateRedo, CreateUndo);
    assert p[0] == (SET_BITS_IN_NONRESIDENT_BIT_MAP, CLEAR_BITS_IN_NONRESIDENT_BIT_MAP);
    assert p[0] !in t;
    NotInNoMatch(p, t);
  }

  /** With interchange, the root form of a rename transaction (the index
      entries held in the MFT record's index root) is recognised as well as
      the allocation form; without it, it is not. */
  lemma RootFormOfRename()
    ensures RunMatches(RootRenameRedo, RootRenameUndo, RenameRedo, RenameUndo, true)
    ensures !RunMatches(RootRenameRedo, RootRenameUndo, RenameRedo, RenameUndo, false)
  {
    var p := Run(RenameRedo, RenameUndo);
    var t := Normalised(Run(RootRenameRedo, RootRenameUndo), true);
    assert t == p;
    SubsequenceOfSelf(p);
    var u := Normalised(Run(RootRenameRedo, RootRenameUndo), false);
    assert u[0] == (DELETE_INDEX_ENTRY_ROOT, ADD_INDEX_ENTRY_ROOT);
    assert p[0] !in u;
    NotInNoMatch(p, u);
  }

  const RootRenameRedo: seq<int> := [DELETE_INDEX_ENTRY_ROOT, DELETE_ATTRIBUTE, CREATE_ATTRIBUTE,
                                      ADD_INDEX_ENTRY_ROOT, FORGET_TRANSACTION]
  const RootRenameUndo: seq<int> := [ADD_INDEX_ENTRY_ROOT, CREATE_ATTRIBUTE, DELETE_ATTRIBUTE,
                                      DELETE_INDEX_ENTRY_ROOT, COMPENSATION_LOG_RECORD]

  lemma {:induction false} SubsequenceOfSelf<T>(s: seq<T>)
    ensures IsSubsequence(s, s)
  {
    if |s| > 0 {
      SubsequenceOfSelf(s[1..]);
    }
  }

  /** A pattern whose first pair never occurs does not match. */
  lemma {:induction false} NotInNoMatch<T>(p: seq<T>, t: seq<T>)
    requires |p| > 0 && p[0] !in t
    ensures !IsSubsequence(p, t)
    decreases |t|
  {
    if |t| > 0 {
      assert t[0] != p[0];
      assert p[0] !in t[1..];
      NotInNoMatch(p, t[1..]);
    }
  }
}
