/** The Python front ends (ntfs-linker.py and main-v4.3.py): find the USN
    journal's $J stream in the input directory, cut away its sparse leading
    part and hand the rest to the native executable as $USN.

    The journal's $J stream is mostly zeros at the front (NTFS deallocates
    old records to a sparse region); the live records sit at the end. The
    scripts walk backwards from the end in steps of 2^20 bytes, peeking at
    4096 bytes each time, and stop at the first peek that is entirely
    zero; everything after that peek is kept. */
module Trim {
  import opened Common
  import HelperFunctions

  // ---------------------------------------------------------------------
  // The directory the scripts look at

  /** What a name in the input directory refers to. */
  datatype Entry = RegularFile(data: seq<Byte>) | Folder

  /** The entries of one directory, by name. */
  type Directory = map<string, Entry>

  /** The names $J may be exported under, in the order they are tried. */
  const Aliases: seq<string> := ["$J", "$USNJR~1"]

  /** The name of the trimmed copy the native program reads. */
  const TrimmedName: string := "$USN"

  predicate IsRegularFile(dir: Directory, name: string)
  {
    name in dir && dir[name].RegularFile?
  }

  /** The alias loop: the first alias naming a regular file (os.path.isfile). */
  function Locate(dir: Directory): (r: Option<string>)
    ensures r.Some? ==> r.value in Aliases && IsRegularFile(dir, r.value)
    ensures r.Some? && r.value != Aliases[0] ==> !IsRegularFile(dir, Aliases[0])
    ensures r.None? <==> forall a :: a in Aliases ==> !IsRegularFile(dir, a)
  {
    if IsRegularFile(dir, Aliases[0]) then Some(Aliases[0])
    else if IsRegularFile(dir, Aliases[1]) then Some(Aliases[1])
    else None
  }

  // ---------------------------------------------------------------------
  // The backward scan

  /** f.seek(-(1 << 20), 1): the backward step before each peek. */
  const STRIDE: int := 0x10_0000
  /** f.read(4096): the size of each peek. */
  const PROBE: int := 4096
  /** How far the file position moves back over one step and one peek. */
  const STEP: int := STRIDE - PROBE

  predicate AllZero(s: seq<Byte>)
  {
    forall i :: 0 <= i < |s| ==> s[i] == 0
  }

  /** Where the k-th peek (k >= 1) starts in a file of the given length,
      counting from the end: each iteration leaves the position STEP bytes
      further back than the previous one. Negative means the k-th seek
      would go before the start of the file. */
  function ProbeStart(len: nat, k: nat): int
  {
    len - k * STEP - PROBE
  }

  /** The k-th peek reads only zeros. */
  predicate ZeroProbe(data: seq<Byte>, k: nat)
    requires 0 <= ProbeStart(|data|, k)
  {
    AllZero(data[ProbeStart(|data|, k)..ProbeStart(|data|, k) + PROBE])
  }

  /** Peeks 1 .. k-1 all exist and all found a non-zero byte. */
  predicate NonZeroBefore(data: seq<Byte>, k: nat)
  {
    forall j :: 1 <= j < k ==> 0 <= ProbeStart(|data|, j) && !ZeroProbe(data, j)
  }

  /** The scan ends at peek k: the first peek reading only zeros. */
  predicate StopsAt(data: seq<Byte>, k: nat)
  {
    1 <= k && NonZeroBefore(data, k) && 0 <= ProbeStart(|data|, k) && ZeroProbe(data, k)
  }

  /** The scan fails at peek k: every earlier peek saw data and the k-th
      seek would pass the start of the file (Python raises IOError). */
  predicate FailsAt(data: seq<Byte>, k: nat)
  {
    1 <= k && NonZeroBefore(data, k) && ProbeStart(|data|, k) < 0
  }

  datatype ScanOutcome =
    | SeekBeforeStart
    | Boundary(pos: nat)   // file position after the all-zero peek

  /** The while-not-done loop of both scripts, with the file as a byte
      sequence and an explicit file position. */
  method ScanBoundary(data: seq<Byte>) returns (r: ScanOutcome)
    ensures r.Boundary? ==>
      exists k :: StopsAt(data, k) && r.pos == ProbeStart(|data|, k) + PROBE
    ensures r.SeekBeforeStart? ==> exists k :: FailsAt(data, k)
  {
    var position: int := |data|;      // f.seek(0, 2)
    var done := false;
    ghost var k: nat := 0;
    while !done
      invariant position == |data| - k * STEP
      invariant !done ==> NonZeroBefore(data, k + 1)
      invariant done ==> StopsAt(data, k) && position == ProbeStart(|data|, k) + PROBE
      decreases if done then 0 else position + 1
    {
      if position < STRIDE {
        assert FailsAt(data, k + 1);
        return SeekBeforeStart;
      }
      var start := position - STRIDE;
      var end := if start + PROBE <= |data| then start + PROBE else |data|;
      var buffer := data[start..end];
      position := end;
      k := k + 1;
      assert start == ProbeStart(|data|, k) && end == start + PROBE;
      done := true;
      var i := 0;
      while i < |buffer|
        invariant 0 <= i <= |buffer|
        invariant done ==> forall m :: 0 <= m < i ==> buffer[m] == 0
        invariant !done ==> !AllZero(buffer)
        decreases |buffer| - i
      {
        if buffer[i] != 0 {
          done := false;
          break;
        }
        i := i + 1;
      }
    }
    assert exists k' :: StopsAt(data, k') && position == ProbeStart(|data|, k') + PROBE by {
      assert StopsAt(data, k);
    }
    return Boundary(position);
  }

  /** The k-th peek ends before the (k-1)-th begins: peeks move backwards. */
  lemma ProbesMoveBack(len: nat, j: nat, k: nat)
    requires j < k
    ensures ProbeStart(len, k) + PROBE <= ProbeStart(len, j)
  {
    assert ProbeStart(len, j) - ProbeStart(len, k) == (k - j) * STEP;
  }

  /** At most one peek can end the scan, and a scan that ends cannot also
      fail: the two outcomes of the loop are exclusive and the boundary is
      unique. */
  lemma ScanDeterministic(data: seq<Byte>, k: nat, k': nat)
    requires StopsAt(data, k) || FailsAt(data, k)
    requires StopsAt(data, k') || FailsAt(data, k')
    ensures k == k'
    ensures StopsAt(data, k) <==> StopsAt(data, k')
  {
  }

  /** What the trimmed copy keeps. The position after the all-zero peek
      is k whole steps from the end; the 4096 bytes just before the kept
      tail are zero; and every peek that saw data lies inside the tail. */
  lemma {:induction false} TailProperties(data: seq<Byte>, k: nat)
    requires StopsAt(data, k)
    ensures var b := ProbeStart(|data|, k) + PROBE;
      0 <= b <= |data| &&
      |data[b..]| == k * STEP &&
      AllZero(data[b - PROBE..b]) &&
      forall j :: 1 <= j < k ==> b <= ProbeStart(|data|, j)
  {
    var b := ProbeStart(|data|, k) + PROBE;
    forall j | 1 <= j < k
      ensures b <= ProbeStart(|data|, j)
    {
      ProbesMoveBack(|data|, j, k);
    }
  }

  /** The trimmed copy cannot be trimmed again: the peeks over the tail are
      the same peeks as over the whole file, shifted, and the all-zero one
      now lies before the start, so the scan of the copy runs off its front. */
  lemma {:induction false} RetrimFails(data: seq<Byte>, k: nat)
    requires StopsAt(data, k)
    ensures FailsAt(data[ProbeStart(|data|, k) + PROBE..], k)
  {
    var b := ProbeStart(|data|, k) + PROBE;
    var tail := data[b..];
    assert |tail| == |data| - b;
    forall j | 1 <= j < k
      ensures 0 <= ProbeStart(|tail|, j) && !ZeroProbe(tail, j)
    {
      ProbesMoveBack(|data|, j, k);
      var p := ProbeStart(|data|, j);
      assert ProbeStart(|tail|, j) == p - b;
      assert tail[p - b..p - b + PROBE] == data[p..p + PROBE];
    }
    assert ProbeStart(|tail|, k) == -PROBE;
  }

  // ---------------------------------------------------------------------
  // The whole front end

  /** What one run of a script leaves behind. */
  datatype TrimOutcome =
    | JournalNotFound                        // "USN Journal file not found at"
    | SeekFailed                             // IOError from the backward seek
    | OutputIsFolder                         // IOError from open($USN, 'wb')
    | Trimmed(dir: Directory, argv: seq<string>)   // $USN written, executable launched

  predicate IsFolder(dir: Directory, name: string)
  {
    name in dir && dir[name].Folder?
  }

  /** What one trimming run promises, outcome by outcome. No journal is
      reported exactly when no alias names a regular file. Otherwise the
      backward seek fails exactly when the scan runs off the front of the
      file; opening $USN fails exactly when the scan stops but $USN is a
      folder; and a successful run adds or replaces only $USN, with the
      bytes after the all-zero peek, and launches with the given argv. */
  ghost predicate TrimsJournal(dir: Directory, argv: seq<string>, r: TrimOutcome)
  {
    (r.JournalNotFound? <==> Locate(dir).None?) &&
    (Locate(dir).Some? ==>
      var data := dir[Locate(dir).value].data;
      (r.SeekFailed? <==> exists k :: FailsAt(data, k)) &&
      (r.OutputIsFolder? <==> (exists k :: StopsAt(data, k)) && IsFolder(dir, TrimmedName)) &&
      (r.Trimmed? ==>
        r.argv == argv &&
        r.dir.Keys == dir.Keys + {TrimmedName} &&
        (forall n :: n in dir && n != TrimmedName ==> r.dir[n] == dir[n]) &&
        exists k :: StopsAt(data, k) &&
          r.dir[TrimmedName] == RegularFile(data[ProbeStart(|data|, k) + PROBE..])))
  }

  /** Locate $J, scan it and write everything after the boundary to $USN in
      the same directory; argv is what the native program is started with. */
  method TrimJournal(dir: Directory, argv: seq<string>) returns (r: TrimOutcome)
    ensures TrimsJournal(dir, argv, r)
  {
    var name := Locate(dir);
    if name.None? {
      return JournalNotFound;
    }
    var data := dir[name.value].data;
    var scan := ScanBoundary(data);
    if scan.SeekBeforeStart? {
      var k :| FailsAt(data, k);
      forall k' ensures !StopsAt(data, k') {
        if StopsAt(data, k') {
          ScanDeterministic(data, k, k');
        }
      }
      return SeekFailed;
    }
    var k :| StopsAt(data, k) && scan.pos == ProbeStart(|data|, k) + PROBE;
    forall k' ensures !FailsAt(data, k') {
      if FailsAt(data, k') {
        ScanDeterministic(data, k, k');
      }
    }
    if IsFolder(dir, TrimmedName) {
      return OutputIsFolder;
    }
    var usn := data[scan.pos..];               // out.write(f.read())
    return Trimmed(dir[TrimmedName := RegularFile(usn)], argv);
  }

  /** The native program is launched exactly when the journal exists, the
      scan stops at an all-zero peek and $USN can be opened for writing. */
  lemma {:induction false} LaunchedIffScanStops(dir: Directory, argv: seq<string>, r: TrimOutcome)
    requires TrimsJournal(dir, argv, r)
    ensures r.Trimmed? <==>
      Locate(dir).Some? &&
      (exists k :: StopsAt(dir[Locate(dir).value].data, k)) &&
      !IsFolder(dir, TrimmedName)
  {
    if Locate(dir).Some? {
      var data := dir[Locate(dir).value].data;
      if k :| StopsAt(data, k) {
        forall k' ensures !FailsAt(data, k') {
          if FailsAt(data, k') {
            ScanDeterministic(data, k, k');
          }
        }
      }
    }
  }

  // ---------------------------------------------------------------------
  // ntfs-linker.py

  const Executable: string := "ntfs-linker-v4.3.exe"

  /** The subprocess arguments of ntfs-linker.py: the native program in
      --python mode on the input and output folders, overwriting unless
      --append was given. */
  function LinkerArgv(input: string, output: string, append: bool): (argv: seq<string>)
    ensures |argv| == (if append then 6 else 7)
    ensures argv[..6] == [Executable, "--python", "-i", input, "-o", output]
    ensures !append ==> argv[6] == "--overwrite"
  {
    [Executable, "--python", "-i", input, "-o", output] +
    (if append then [] else ["--overwrite"])
  }

  /** The native program reads back the folders the script passed: -i
      always yields the input, and -o the output unless the input folder is
      itself literally called "-o". */
  lemma LinkerArgvParses(input: string, output: string, append: bool)
    ensures HelperFunctions.GetCmdOption(LinkerArgv(input, output, append), "-i") == Some(input)
    ensures input != "-o" ==>
      HelperFunctions.GetCmdOption(LinkerArgv(input, output, append), "-o") == Some(output)
    ensures input != "--overwrite" && output != "--overwrite" ==>
      (HelperFunctions.CmdOptionExists(LinkerArgv(input, output, append), "--overwrite") <==> !append)
    ensures HelperFunctions.CmdOptionExists(LinkerArgv(input, output, append), "--python")
  {
    var argv := LinkerArgv(input, output, append);
    HelperFunctions.CmdOptionExistsIff(argv, "--overwrite");
    HelperFunctions.CmdOptionExistsIff(argv, "--python");
    assert argv[2] == "-i" && argv[4] == "-o";
    if input != "-o" {
      assert HelperFunctions.Find(argv, "-o") == 4;
    }
    assert HelperFunctions.Find(argv, "-i") == 2;
  }

  /** ntfs-linker.py main, after argparse has accepted the folders. */
  method LinkerMain(dir: Directory, input: string, output: string, append: bool)
    returns (r: TrimOutcome)
    ensures r.JournalNotFound? <==> Locate(dir).None?
    ensures r.Trimmed? ==> r.argv == LinkerArgv(input, output, append) && TrimmedName in r.dir
    ensures TrimsJournal(dir, LinkerArgv(input, output, append), r)
  {
    r := TrimJournal(dir, LinkerArgv(input, output, append));
  }

  // ---------------------------------------------------------------------
  // main-v4.3.py

  /** The directory main-v4.3.py trims: the argument after the first -u,
      overridden by the one after the first -i, "" when neither occurs.
      A flag in last position makes args[index + 1] raise IndexError, which
      nothing catches: None. */
  function SelectDir(args: seq<string>): (r: Option<string>)
    ensures r.None? <==>
      ("-u" in args && HelperFunctions.Find(args, "-u") == |args| - 1) ||
      ("-i" in args && HelperFunctions.Find(args, "-i") == |args| - 1)
    ensures r.Some? && HelperFunctions.GetCmdOption(args, "-i").Some? ==>
      r.value == HelperFunctions.GetCmdOption(args, "-i").value
    ensures r.Some? && "-i" !in args && HelperFunctions.GetCmdOption(args, "-u").Some? ==>
      r.value == HelperFunctions.GetCmdOption(args, "-u").value
    ensures r.Some? && "-i" !in args && "-u" !in args ==> r.value == ""
  {
    var u := HelperFunctions.Find(args, "-u");
    var i := HelperFunctions.Find(args, "-i");
    HelperFunctions.CmdOptionExistsIff(args, "-u");
    HelperFunctions.CmdOptionExistsIff(args, "-i");
    if u < |args| && u + 1 >= |args| then None
    else
      var fromU := if u < |args| then args[u + 1] else "";
      if i < |args| && i + 1 >= |args| then None
      else Some(if i < |args| then args[i + 1] else fromU)
  }

  /** The subprocess arguments of main-v4.3.py: its own arguments passed
      through behind the executable name and --python. */
  function PassThroughArgv(args: seq<string>): (argv: seq<string>)
    ensures |argv| == 2 + (if |args| == 0 then 0 else |args| - 1)
    ensures argv[..2] == [Executable, "--python"]
    ensures forall m :: 1 <= m < |args| ==> argv[m + 1] == args[m]
  {
    [Executable, "--python"] + (if |args| == 0 then [] else args[1..])
  }

  /** A filesystem of directories by path, for choosing the one to trim. */
  type FileSystem = map<string, Directory>

  datatype MainOutcome =
    | IndexError                  // a trailing -u or -i
    | Ran(dirPath: string, outcome: TrimOutcome)

  /** main-v4.3.py main: a path naming no directory has no $J either. */
  method PassThroughMain(fs: FileSystem, args: seq<string>) returns (r: MainOutcome)
    ensures r.IndexError? <==> SelectDir(args).None?
    ensures r.Ran? ==> r.dirPath == SelectDir(args).value
    ensures r.Ran? && r.dirPath !in fs ==> r.outcome.JournalNotFound?
    ensures r.Ran? && r.outcome.Trimmed? ==> r.outcome.argv == PassThroughArgv(args)
    ensures r.Ran? ==>
      TrimsJournal(if r.dirPath in fs then fs[r.dirPath] else map[], PassThroughArgv(args), r.outcome)
  {
    var path := SelectDir(args);
    if path.None? {
      return IndexError;
    }
    var dir: Directory := if path.value in fs then fs[path.value] else map[];
    var outcome := TrimJournal(dir, PassThroughArgv(args));
    return Ran(path.value, outcome);
  }
}
