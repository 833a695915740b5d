/** The File record that maps an MFT record number to its name and parent
    (include/file.h). Record and parent numbers are C++ `unsigned int`. */
module Files {
  import opened Common

  datatype File = File(
    Name: string,
    RecordNo: nat,       // record_no
    ParRecordNo: nat,    // par_record_no (called Parent in src/aggregate.cpp)
    Timestamp: string,
    Valid: bool)

  /** File(): the placeholder for a record number with no MFT entry. */
  const EmptyFile := File("", 0, 0, "", false)

  /** File(Name, RecordNo, ParRecordNo, Timestamp): the numbers are narrowed
      to `unsigned int`, and the result is marked valid. */
  function MakeFile(name: string, recordNo: int, parRecordNo: int, timestamp: string): (f: File)
    ensures f.Valid && f.Name == name && f.Timestamp == timestamp
    ensures f.RecordNo < TWO_32 && f.ParRecordNo < TWO_32
    ensures 0 <= recordNo < TWO_32 ==> f.RecordNo == recordNo
    ensures 0 <= parRecordNo < TWO_32 ==> f.ParRecordNo == parRecordNo
  {
    File(name, U32(recordNo), U32(parRecordNo), timestamp, true)
  }
}
