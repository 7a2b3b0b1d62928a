/** Grouping the online CPUs of the kernel's topology files into cores, and counting them. */
module Topology {
  import opened Wrappers
  import opened Text
  import OnlineCpus

  // ----- What the topology files say -----

  datatype FileRead = Absent | ReadFailed | Content(text: string)

  /** One cpu directory: its path and what reading its two topology files gives. */
  datatype CpuDir = CpuDir(path: string, coreId: FileRead, packageId: FileRead)

  datatype OnlineFile = NoHotplug | Unreadable | List(content: string)

  /** The digits after the first "/cpu" that is followed by a digit. */
  function CpuDigits(path: string): Option<string>
    decreases |path|
  {
    if |path| < 5 then None
    else if HasPrefix(path, "/cpu") && IsDigit(path[4]) then Some(path[4..4 + DigitRun(path[4..])])
    else CpuDigits(path[1..])
  }

  function GetCPUID(path: string): Option<int>
  {
    match CpuDigits(path)
    case None => None
    case Some(digits) => Atoi(digits)
  }

  /** Without the list file every CPU is online; with an unreadable or malformed one none is. */
  function IsCPUOnline(file: OnlineFile, cpu: int): bool
  {
    match file
    case NoHotplug => true
    case Unreadable => false
    case List(content) => OnlineCpus.Online(content, cpu % 0x1_0000) == Ok(true)
  }

  lemma ReadsTheList(content: string, cpu: int)
    requires 0 <= cpu <= 65535
    ensures IsCPUOnline(List(content), cpu) <==> OnlineCpus.Online(content, cpu) == Ok(true)
  {
    assert cpu % 0x1_0000 == cpu;
  }

  /** What the list of online CPUs says about a 16-bit CPU number, and what its absence says. */
  lemma OnlineExactly(file: OnlineFile, cpu: int)
    requires 0 <= cpu <= 65535
    ensures IsCPUOnline(file, cpu)
            <==> file.NoHotplug?
                 || (file.List? && file.content != "" && OnlineCpus.Found(Split(TrimSpace(file.content), ','), cpu))
  {
    if file.List? {
      ReadsTheList(file.content, cpu);
      OnlineCpus.OnlineExactly(file.content, cpu);
    }
  }

  /** On the list that the kernel prints of some ranges a CPU is online exactly when it is in one of them. */
  lemma OnlineOnPrintedList(ranges: seq<OnlineCpus.Range>, cpu: nat)
    requires ranges != [] && (forall i :: 0 <= i < |ranges| ==> ranges[i].lo <= ranges[i].hi <= 65535) && cpu <= 65535
    ensures IsCPUOnline(List(OnlineCpus.PrintList(ranges)), cpu) <==> OnlineCpus.InUnion(ranges, cpu)
  {
    var content := OnlineCpus.PrintList(ranges);
    assert OnlineCpus.Online(content, cpu) == Ok(OnlineCpus.InUnion(ranges, cpu)) by {
      OnlineCpus.OnlineOnPrintedList(ranges, cpu);
    }
    ReadsTheList(content, cpu);
  }

  // ----- The role of one directory -----

  datatype Thread = Thread(core: int, socket: int, cpu: int)

  datatype Role = Ignored | Counted(thread: Thread) | Broken

  function ReadId(file: FileRead): Option<int>
  {
    if file.Content? then Atoi(TrimSpace(file.text)) else None
  }

  function RoleOf(online: OnlineFile, dir: CpuDir): Role
  {
    match GetCPUID(dir.path)
    case None => Broken
    case Some(cpu) =>
      if !IsCPUOnline(online, cpu) || dir.coreId.Absent? then Ignored
      else if ReadId(dir.coreId).None? then Broken
      else if dir.packageId.Absent? then Ignored
      else if ReadId(dir.packageId).None? then Broken
      else Counted(Thread(ReadId(dir.coreId).value, ReadId(dir.packageId).value, cpu))
  }

  // ----- Directories as the kernel prints them -----

  lemma NotAtStart(parent: string, digits: string)
    requires parent != "" && CpuDigits(parent).None?
    ensures var path := parent + "/cpu" + digits; !(HasPrefix(path, "/cpu") && IsDigit(path[4]))
    ensures CpuDigits(parent[1..]).None?
  {
    var path := parent + "/cpu" + digits;
    assert path[|parent|] == '/';
    assert "/cpu"[1] == 'c' && "/cpu"[2] == 'p' && "/cpu"[3] == 'u';
    if |parent| >= 5 {
      assert path[..5] == parent[..5];
    } else {
      assert |parent| < 4 ==> path[..4][|parent|] == '/';
      assert HasPrefix(path, "/cpu") <==> path[..4] == "/cpu";
    }
  }

  lemma {:induction false} CpuDigitsOfPath(parent: string, digits: string)
    requires CpuDigits(parent).None? && digits != "" && AllDigits(digits)
    ensures CpuDigits(parent + "/cpu" + digits) == Some(digits)
    decreases |parent|
  {
    var path := parent + "/cpu" + digits;
    if parent == "" {
      assert path == "/cpu" + digits && path[4..] == digits && digits + "" == digits;
      DigitRunOf(digits, "");
      assert HasPrefix(path, "/cpu") && IsDigit(path[4]);
      assert path[4..4 + |digits|] == digits;
    } else {
      assert path[1..] == parent[1..] + "/cpu" + digits;
      NotAtStart(parent, digits);
      CpuDigitsOfPath(parent[1..], digits);
    }
  }

  const MAX_INT64 := 0x7FFF_FFFF_FFFF_FFFF

  lemma ReadIdOfPrinted(n: nat)
    requires n <= MAX_INT64
    ensures Atoi(Decimal(n)) == Some(n) && ReadId(Content(Decimal(n) + "\n")) == Some(n)
  {
    ValueOfDecimal(n);
    TrimLine(Decimal(n));
  }

  /** A directory .../cpu<n> whose files hold two numbers counts thread n of that core and socket when n is online. */
  lemma RoleOfPrinted(online: OnlineFile, parent: string, cpu: nat, core: nat, socket: nat)
    requires CpuDigits(parent).None? && cpu <= MAX_INT64 && core <= MAX_INT64 && socket <= MAX_INT64
    ensures RoleOf(online, CpuDir(parent + "/cpu" + Decimal(cpu), Content(Decimal(core) + "\n"), Content(Decimal(socket) + "\n")))
            == if IsCPUOnline(online, cpu) then Counted(Thread(core, socket, cpu)) else Ignored
  {
    CpuDigitsOfPath(parent, Decimal(cpu));
    ReadIdOfPrinted(cpu);
    ReadIdOfPrinted(core);
    ReadIdOfPrinted(socket);
  }

  // ----- The threads of a machine -----

  // How the topology files of each directory read; on a machine this is ReadingOf its list of online CPUs.
  type Reading = CpuDir -> Role

  /** The reading of a machine whose list of online CPUs is in this file. */
  function ReadingOf(online: OnlineFile): Reading
  {
    (dir: CpuDir) => RoleOf(online, dir)
  }

  function Roles(reading: Reading, dirs: seq<CpuDir>): (roles: seq<Role>)
    ensures |roles| == |dirs|
    ensures forall i :: 0 <= i < |dirs| ==> roles[i] == reading(dirs[i])
  {
    seq(|dirs|, i requires 0 <= i < |dirs| => reading(dirs[i]))
  }

  predicate AllReadable(roles: seq<Role>)
  {
    forall i :: 0 <= i < |roles| ==> !roles[i].Broken?
  }

  /** The online CPUs among the first n directories that have both topology files, in input order. */
  function Threads(roles: seq<Role>, n: nat): seq<Thread>
    requires n <= |roles|
  {
    if n == 0 then []
    else Threads(roles, n - 1) + (if roles[n - 1].Counted? then [roles[n - 1].thread] else [])
  }

  /** The online CPUs of a list of directories. */
  function OnlineThreads(reading: Reading, dirs: seq<CpuDir>): seq<Thread>
  {
    Threads(Roles(reading, dirs), |dirs|)
  }

  // ----- The same in terms of the files -----

  /** The directory of an online CPU that has both topology files. */
  predicate IsOnlineDir(online: OnlineFile, dir: CpuDir)
  {
    && GetCPUID(dir.path).Some? && IsCPUOnline(online, GetCPUID(dir.path).value)
    && !dir.coreId.Absent? && !dir.packageId.Absent?
  }

  /** The path ends in a CPU number, and for an online CPU each file up to the first absent one holds a number. */
  predicate IsReadable(online: OnlineFile, dir: CpuDir)
  {
    && GetCPUID(dir.path).Some?
    && (IsCPUOnline(online, GetCPUID(dir.path).value) && !dir.coreId.Absent? ==>
          ReadId(dir.coreId).Some? && (dir.packageId.Absent? || ReadId(dir.packageId).Some?))
  }

  /** Every directory of a node is readable. */
  ghost predicate AllDirsReadable(online: OnlineFile, dirs: seq<CpuDir>)
  {
    forall i :: 0 <= i < |dirs| ==> IsReadable(online, dirs[i])
  }

  /** The numbers that a directory's path and files give. */
  predicate Names(dir: CpuDir, t: Thread)
  {
    GetCPUID(dir.path) == Some(t.cpu) && ReadId(dir.coreId) == Some(t.core) && ReadId(dir.packageId) == Some(t.socket)
  }

  /** The directories to keep among the first n, in input order. */
  function Filter(keep: CpuDir -> bool, dirs: seq<CpuDir>, n: nat): (r: seq<CpuDir>)
    requires n <= |dirs|
    ensures forall dir :: dir in r <==> dir in dirs[..n] && keep(dir)
  {
    if n == 0 then []
    else
      assert dirs[..n] == dirs[..n - 1] + [dirs[n - 1]];
      Filter(keep, dirs, n - 1) + (if keep(dirs[n - 1]) then [dirs[n - 1]] else [])
  }

  /** The directories of online CPUs with both files, in input order. */
  function OnlineDirs(online: OnlineFile, dirs: seq<CpuDir>): seq<CpuDir>
  {
    Filter(dir => IsOnlineDir(online, dir), dirs, |dirs|)
  }

  function ThreadOf(dir: CpuDir): Thread
  {
    var number := (id: Option<int>) => if id.Some? then id.value else 0;
    Thread(number(ReadId(dir.coreId)), number(ReadId(dir.packageId)), number(GetCPUID(dir.path)))
  }

  function ThreadsOf(dirs: seq<CpuDir>): seq<Thread>
  {
    seq(|dirs|, i requires 0 <= i < |dirs| => ThreadOf(dirs[i]))
  }

  lemma RoleExactly(online: OnlineFile, dir: CpuDir)
    ensures RoleOf(online, dir).Broken? <==> !IsReadable(online, dir)
    ensures IsReadable(online, dir) ==> (RoleOf(online, dir).Counted? <==> IsOnlineDir(online, dir))
    ensures RoleOf(online, dir).Counted? ==> RoleOf(online, dir).thread == ThreadOf(dir) && Names(dir, ThreadOf(dir))
  {
  }

  /** Grouping fails exactly if some directory is not readable. */
  lemma ReadableExactly(online: OnlineFile, dirs: seq<CpuDir>)
    ensures AllReadable(Roles(ReadingOf(online), dirs)) <==> AllDirsReadable(online, dirs)
  {
    var roles := Roles(ReadingOf(online), dirs);
    forall i | 0 <= i < |dirs|
      ensures roles[i].Broken? <==> !IsReadable(online, dirs[i])
    {
      RoleExactly(online, dirs[i]);
    }
  }

  lemma {:induction false} CountedInOrder(roles: seq<Role>, keep: CpuDir -> bool, dirs: seq<CpuDir>, n: nat)
    requires n <= |dirs| == |roles|
    requires forall i :: 0 <= i < |dirs| ==> roles[i] == Counted(ThreadOf(dirs[i])) || (!roles[i].Counted? && !keep(dirs[i]))
    requires forall i :: 0 <= i < |dirs| && roles[i].Counted? ==> keep(dirs[i])
    ensures Threads(roles, n) == ThreadsOf(Filter(keep, dirs, n))
  {
    if n > 0 {
      CountedInOrder(roles, keep, dirs, n - 1);
    }
  }

  /** The counted threads are those of the online CPUs with both files, each once and in input order. */
  lemma OnlineThreadsInOrder(online: OnlineFile, dirs: seq<CpuDir>)
    requires AllDirsReadable(online, dirs)
    ensures OnlineThreads(ReadingOf(online), dirs) == ThreadsOf(OnlineDirs(online, dirs))
  {
    var roles := Roles(ReadingOf(online), dirs);
    var keep := (dir: CpuDir) => IsOnlineDir(online, dir);
    forall i | 0 <= i < |dirs|
      ensures roles[i] == Counted(ThreadOf(dirs[i])) || (!roles[i].Counted? && !keep(dirs[i]))
      ensures roles[i].Counted? ==> keep(dirs[i])
    {
      RoleExactly(online, dirs[i]);
    }
    CountedInOrder(roles, keep, dirs, |dirs|);
  }

  /** A thread is listed exactly when one of the roles counts it. */
  lemma {:induction false} ThreadsExactly(roles: seq<Role>, n: nat, t: Thread)
    requires n <= |roles|
    ensures t in Threads(roles, n) <==> exists i :: 0 <= i < n && roles[i] == Counted(t)
  {
    if n > 0 {
      ThreadsExactly(roles, n - 1, t);
    }
  }

  /** A thread is among them exactly when some directory names it, its CPU is online and both files are numbers. */
  lemma OnlineThreadsExactly(online: OnlineFile, dirs: seq<CpuDir>, t: Thread)
    ensures t in OnlineThreads(ReadingOf(online), dirs)
            <==> exists i :: 0 <= i < |dirs| && Names(dirs[i], t) && IsCPUOnline(online, t.cpu)
  {
    var roles := Roles(ReadingOf(online), dirs);
    ThreadsExactly(roles, |dirs|, t);
    forall i | 0 <= i < |dirs|
      ensures roles[i] == Counted(t) <==> Names(dirs[i], t) && IsCPUOnline(online, t.cpu)
    {
      RoleExactly(online, dirs[i]);
    }
  }

  // ----- Grouping -----

  datatype Core = Core(id: int, threads: seq<int>, socket: int)

  /** The last of the first n cores with this id and socket, or -1. */
  function FindCore(cores: seq<Core>, n: nat, id: int, socket: int): (k: int)
    requires n <= |cores|
    ensures -1 <= k < n
    ensures k >= 0 ==> cores[k].id == id && cores[k].socket == socket
    ensures k == -1 ==> forall j :: 0 <= j < n ==> cores[j].id != id || cores[j].socket != socket
  {
    if n == 0 then -1
    else if cores[n - 1].id == id && cores[n - 1].socket == socket then n - 1
    else FindCore(cores, n - 1, id, socket)
  }

  function AddThread(cores: seq<Core>, t: Thread): seq<Core>
  {
    var k := FindCore(cores, |cores|, t.core, t.socket);
    if k == -1 then cores + [Core(t.core, [t.cpu], t.socket)]
    else cores[k := Core(t.core, cores[k].threads + [t.cpu], t.socket)]
  }

  function Group(threads: seq<Thread>): seq<Core>
  {
    if threads == [] then []
    else AddThread(Group(threads[..|threads| - 1]), threads[|threads| - 1])
  }

  /** Puts one thread into its core, which is added at the end when it is new. */
  method PlaceThread(cores: seq<Core>, t: Thread) returns (r: seq<Core>)
    ensures r == AddThread(cores, t)
  {
    var index := -1;
    for k := 0 to |cores|
      invariant index == FindCore(cores, k, t.core, t.socket)
    {
      if cores[k].id == t.core && cores[k].socket == t.socket {
        index := k;
      }
    }
    if index == -1 {
      r := cores + [Core(t.core, [t.cpu], t.socket)];
    } else {
      r := cores[index := Core(t.core, cores[index].threads + [t.cpu], t.socket)];
    }
  }

  lemma GroupAppend(threads: seq<Thread>, t: Thread)
    ensures Group(threads + [t]) == AddThread(Group(threads), t)
  {
    assert (threads + [t])[..|threads|] == threads;
  }

  method GroupDirs(reading: Reading, dirs: seq<CpuDir>) returns (r: Option<seq<Core>>)
    ensures r.Some? <==> AllReadable(Roles(reading, dirs))
    ensures r.Some? ==> r.value == Group(OnlineThreads(reading, dirs))
  {
    ghost var roles := Roles(reading, dirs);
    var cores: seq<Core> := [];
    for i := 0 to |dirs|
      invariant forall j :: 0 <= j < i ==> !roles[j].Broken?
      invariant cores == Group(Threads(roles, i))
    {
      var role := reading(dirs[i]);
      if role.Broken? {
        return None;
      }
      if role.Counted? {
        GroupAppend(Threads(roles, i), role.thread);
        assert Threads(roles, i + 1) == Threads(roles, i) + [role.thread];
        cores := PlaceThread(cores, role.thread);
      } else {
        assert Threads(roles, i + 1) == Threads(roles, i);
      }
    }
    return Some(cores);
  }

  /** The cores of one node's CPU directories; fails exactly if some directory is not readable. */
  method GetCoresInfo(online: OnlineFile, dirs: seq<CpuDir>) returns (r: Option<seq<Core>>)
    ensures r.Some? <==> AllDirsReadable(online, dirs)
    ensures r.Some? ==> r.value == Group(ThreadsOf(OnlineDirs(online, dirs)))
  {
    r := GroupDirs(ReadingOf(online), dirs);
    ReadableExactly(online, dirs);
    if r.Some? {
      OnlineThreadsInOrder(online, dirs);
    }
  }

  // ----- What the grouping conserves -----

  ghost predicate DistinctKeys(cores: seq<Core>)
  {
    forall i, j :: 0 <= i < j < |cores| ==> cores[i].id != cores[j].id || cores[i].socket != cores[j].socket
  }

  /** The CPUs of one core, in input order. */
  function CpusOf(threads: seq<Thread>, id: int, socket: int): seq<int>
  {
    if threads == [] then []
    else
      var last := threads[|threads| - 1];
      CpusOf(threads[..|threads| - 1], id, socket) + (if last.core == id && last.socket == socket then [last.cpu] else [])
  }

  ghost predicate HasCore(cores: seq<Core>, id: int, socket: int)
  {
    exists k :: 0 <= k < |cores| && cores[k].id == id && cores[k].socket == socket
  }

  lemma {:induction false} NoCpusOf(threads: seq<Thread>, id: int, socket: int)
    requires forall t :: t in threads ==> t.core != id || t.socket != socket
    ensures CpusOf(threads, id, socket) == []
  {
    if threads != [] {
      NoCpusOf(threads[..|threads| - 1], id, socket);
    }
  }

  /** What grouping has established about the threads it has seen. */
  ghost predicate Partitions(cores: seq<Core>, threads: seq<Thread>)
  {
    && DistinctKeys(cores)
    && (forall k :: 0 <= k < |cores| ==> cores[k].threads == CpusOf(threads, cores[k].id, cores[k].socket))
    && (forall k :: 0 <= k < |cores| ==> cores[k].threads != [])
    && (forall t :: t in threads ==> HasCore(cores, t.core, t.socket))
  }

  lemma CpusOfAppend(threads: seq<Thread>, t: Thread, id: int, socket: int)
    ensures CpusOf(threads + [t], id, socket)
            == CpusOf(threads, id, socket) + (if t.core == id && t.socket == socket then [t.cpu] else [])
  {
    assert (threads + [t])[..|threads|] == threads;
  }

  lemma AddThreadKeepsCores(cores: seq<Core>, t: Thread, id: int, socket: int)
    requires HasCore(cores, id, socket) || (id == t.core && socket == t.socket)
    ensures HasCore(AddThread(cores, t), id, socket)
  {
    var k := FindCore(cores, |cores|, t.core, t.socket);
    var after := AddThread(cores, t);
    if id == t.core && socket == t.socket {
      var j := if k == -1 then |cores| else k;
      assert after[j].id == id && after[j].socket == socket;
    } else {
      var j :| 0 <= j < |cores| && cores[j].id == id && cores[j].socket == socket;
      assert after[j].id == id && after[j].socket == socket;
    }
  }

  lemma NewCoreIsFirst(cores: seq<Core>, threads: seq<Thread>, t: Thread)
    requires Partitions(cores, threads) && FindCore(cores, |cores|, t.core, t.socket) == -1
    ensures CpusOf(threads, t.core, t.socket) == []
  {
    forall x | x in threads
      ensures x.core != t.core || x.socket != t.socket
    {
      assert HasCore(cores, x.core, x.socket);
    }
    NoCpusOf(threads, t.core, t.socket);
  }

  lemma AddThreadPartitions(cores: seq<Core>, threads: seq<Thread>, t: Thread)
    requires Partitions(cores, threads)
    ensures Partitions(AddThread(cores, t), threads + [t])
  {
    var after, k := AddThread(cores, t), FindCore(cores, |cores|, t.core, t.socket);
    if k == -1 {
      NewCoreIsFirst(cores, threads, t);
    }
    forall j | 0 <= j < |after|
      ensures after[j].threads == CpusOf(threads + [t], after[j].id, after[j].socket) != []
    {
      CpusOfAppend(threads, t, after[j].id, after[j].socket);
    }
    forall x | x in threads + [t]
      ensures HasCore(after, x.core, x.socket)
    {
      AddThreadKeepsCores(cores, t, x.core, x.socket);
    }
  }

  /**
   Cores have distinct (id, socket) pairs, each lists exactly the CPUs of its pair in input order, and every
   pair that occurs has a core.
   */
  lemma {:induction false} GroupPartitionsThreads(threads: seq<Thread>)
    ensures Partitions(Group(threads), threads)
  {
    if threads != [] {
      var init, last := threads[..|threads| - 1], threads[|threads| - 1];
      GroupPartitionsThreads(init);
      AddThreadPartitions(Group(init), init, last);
      assert threads == init + [last];
    }
  }

  function CountThreads(cores: seq<Core>): nat
  {
    if cores == [] then 0 else CountThreads(cores[..|cores| - 1]) + |cores[|cores| - 1].threads|
  }

  lemma {:induction false} CountAfterUpdate(cores: seq<Core>, k: nat, c: Core)
    requires k < |cores| && |c.threads| == |cores[k].threads| + 1
    ensures CountThreads(cores[k := c]) == CountThreads(cores) + 1
  {
    var last := |cores| - 1;
    if k == last {
      assert cores[k := c][..last] == cores[..last];
    } else {
      assert cores[k := c][..last] == cores[..last][k := c];
      CountAfterUpdate(cores[..last], k, c);
    }
  }

  /** No online CPU is lost or counted twice. */
  lemma {:induction false} GroupConservesThreads(threads: seq<Thread>)
    ensures CountThreads(Group(threads)) == |threads|
  {
    if threads != [] {
      var init, last := threads[..|threads| - 1], threads[|threads| - 1];
      GroupConservesThreads(init);
      var before := Group(init);
      var k := FindCore(before, |before|, last.core, last.socket);
      if k == -1 {
        assert Group(threads)[..|before|] == before;
      } else {
        CountAfterUpdate(before, k, Core(last.core, before[k].threads + [last.cpu], last.socket));
      }
    }
  }

  /**
   What the cores of a node conserve: they have distinct keys, each lists in input order the CPUs of its key,
   every online CPU with both topology files has a core, and none is lost or listed twice.
   */
  lemma CoresConserveOnlineCpus(online: OnlineFile, dirs: seq<CpuDir>)
    requires AllDirsReadable(online, dirs)
    ensures var found := OnlineDirs(online, dirs);
            var cores := Group(ThreadsOf(found));
            && Partitions(cores, ThreadsOf(found))
            && CountThreads(cores) == |found|
            && forall dir :: dir in dirs && IsOnlineDir(online, dir) ==>
                 HasCore(cores, ThreadOf(dir).core, ThreadOf(dir).socket) && Names(dir, ThreadOf(dir))
  {
    var found := OnlineDirs(online, dirs);
    GroupPartitionsThreads(ThreadsOf(found));
    GroupConservesThreads(ThreadsOf(found));
    forall dir | dir in dirs && IsOnlineDir(online, dir)
      ensures HasCore(Group(ThreadsOf(found)), ThreadOf(dir).core, ThreadOf(dir).socket) && Names(dir, ThreadOf(dir))
    {
      assert dirs[..|dirs|] == dirs;
      var i :| 0 <= i < |found| && found[i] == dir;
      assert ThreadsOf(found)[i] == ThreadOf(dir);
      RoleExactly(online, dir);
    }
  }

  // ----- Counting the cores of the machine -----

  method LogicalCores(cores: seq<Core>) returns (n: nat)
    ensures n == CountThreads(cores)
  {
    n := 0;
    for k := 0 to |cores|
      invariant n == CountThreads(cores[..k])
    {
      assert cores[..k + 1][..k] == cores[..k];
      n := n + |cores[k].threads|;
    }
    assert cores[..|cores|] == cores;
  }

  /** How many online CPUs with both topology files the first n nodes have together. */
  function OnlineCpusOfNodes(online: OnlineFile, nodes: seq<seq<CpuDir>>, n: nat): nat
    requires n <= |nodes|
  {
    if n == 0 then 0
    else OnlineCpusOfNodes(online, nodes, n - 1) + |OnlineDirs(online, nodes[n - 1])|
  }

  /** The threads of one node's cores. */
  method CountNode(online: OnlineFile, dirs: seq<CpuDir>) returns (r: Option<nat>)
    ensures r == if AllDirsReadable(online, dirs) then Some(|OnlineDirs(online, dirs)|) else None
  {
    var cores := GetCoresInfo(online, dirs);
    if cores.None? {
      return None;
    }
    CoresConserveOnlineCpus(online, dirs);
    var n := LogicalCores(cores.value);
    return Some(n);
  }

  /** The threads of all nodes' cores; fails at the first node with a directory that is not readable. */
  method CountNodes(online: OnlineFile, nodes: seq<seq<CpuDir>>) returns (r: Option<nat>)
    ensures r.Some? <==> forall i :: 0 <= i < |nodes| ==> AllDirsReadable(online, nodes[i])
    ensures r.Some? ==> r.value == OnlineCpusOfNodes(online, nodes, |nodes|)
  {
    var count := 0;
    for i := 0 to |nodes|
      invariant forall j :: 0 <= j < i ==> AllDirsReadable(online, nodes[j])
      invariant count == OnlineCpusOfNodes(online, nodes, i)
    {
      if |nodes[i]| > 0 {
        var n := CountNode(online, nodes[i]);
        if n.None? {
          return None;
        }
        count := count + n.value;
      }
    }
    return Some(count);
  }

  /**
   A thousand times the online CPUs of all nodes; without nodes, a thousand times all CPU directories. `nodes`
   is None when listing the nodes fails.
   */
  method GetMilliNumCores(online: OnlineFile, nodes: Option<seq<seq<CpuDir>>>, cpus: Option<seq<CpuDir>>)
    returns (r: Option<int>)
    ensures nodes.None? ==> r.None?
    ensures nodes == Some([]) ==>
              r == if cpus.None? || cpus.value == [] then None else Some(1000 * |cpus.value|)
    ensures nodes.Some? && nodes.value != [] ==>
              && (r.Some? <==> forall i :: 0 <= i < |nodes.value| ==> AllDirsReadable(online, nodes.value[i]))
              && (r.Some? ==> r.value == 1000 * OnlineCpusOfNodes(online, nodes.value, |nodes.value|))
  {
    if nodes.None? {
      return None;
    }
    if |nodes.value| == 0 {
      if cpus.None? || |cpus.value| == 0 {
        return None;
      }
      return Some(|cpus.value| * 1000);
    }
    var count := CountNodes(online, nodes.value);
    match count
    case None => r := None;
    case Some(n) => r := Some(n * 1000);
  }
}
