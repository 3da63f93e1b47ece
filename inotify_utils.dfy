/**
 * The decision logic of the watcher's event loop (lib/inotify_utils.c):
 * exclusion by exact match, building the watch table, resolving a watch
 * handle to its path, and the walk over one read's records with its
 * per-record dispatch and debounce. The kernel's answers (watch handles,
 * the bytes of a read), stat(2) and the clock are inputs.
 */
module InotifyUtils {
  import opened Wrappers
  import opened CStrings
  import opened InotifyRecords

  /** 2 to the power of each bit position of a 32-bit mask. */
  const POW2: seq<nat> := [
    0x1, 0x2, 0x4, 0x8, 0x10, 0x20, 0x40, 0x80,
    0x100, 0x200, 0x400, 0x800, 0x1000, 0x2000, 0x4000, 0x8000,
    0x1_0000, 0x2_0000, 0x4_0000, 0x8_0000, 0x10_0000, 0x20_0000, 0x40_0000, 0x80_0000,
    0x100_0000, 0x200_0000, 0x400_0000, 0x800_0000, 0x1000_0000, 0x2000_0000, 0x4000_0000, 0x8000_0000]

  /** Bit `bit` of `m` is set. */
  predicate HasBit(m: u32, bit: nat)
    requires bit < 32
  {
    m / POW2[bit] % 2 == 1
  }

  // Event flags of inotify(7), by bit position: flag IN_X is the mask value POW2[IN_X].
  const IN_MODIFY: nat := 1
  const IN_MOVED_FROM: nat := 6
  const IN_MOVED_TO: nat := 7
  const IN_CREATE: nat := 8
  const IN_DELETE: nat := 9
  const IN_DELETE_SELF: nat := 10
  const IN_MOVE_SELF: nat := 11
  const IN_IGNORED: nat := 15

  /** The events each watch is registered for, as the set of their bit positions. */
  const WATCH_MASK: set<nat> := {IN_MODIFY, IN_CREATE, IN_DELETE}
  /** The events the loop acts on: a wider set than the watches ask for. */
  const EVENT_MASK: set<nat> :=
    {IN_MODIFY, IN_CREATE, IN_DELETE, IN_DELETE_SELF, IN_MOVE_SELF, IN_MOVED_FROM, IN_MOVED_TO}

  const MAX_EVENTS: nat := 1024
  /** Capacity of the read buffer: room for MAX_EVENTS records with 16-byte names. */
  const BUF_LEN: nat := MAX_EVENTS * (EVENT_SIZE + 16)
  /** Seconds that must strictly pass between two reloads. */
  const RELOAD_TIMEOUT: int := 1
  /** Size of the path buffers the loop fills per record. */
  const PATH_MAX: nat := 4096

  /** One slot of the watch table: handle, position in the pattern list, path. */
  datatype WatchEntry = WatchEntry(watchFd: int, index: int, name: string)

  /** A slot of the table; None for a slot nothing was ever written to. */
  type Slot = Option<WatchEntry>

  /**
   * The loop's configuration. `excludes` is None when the exclude array is
   * NULL (no exclude patterns); `numExcluded` is the count passed with it.
   */
  datatype EventArgs = EventArgs(
    inotifyFd: int, patterns: seq<string>, numExcluded: int, excludes: Option<seq<string>>)

  /** The exclude count never reaches past the exclude array. */
  predicate ExcludeListOk(numExcluded: int, excludes: Option<seq<string>>) {
    excludes.Some? ==> numExcluded <= |excludes.value|
  }

  // ---------------------------------------------------------------- is_excluded

  /**
   * A path is excluded when the exclude array exists, the path is not
   * empty, and it is string-equal to one of the first `numExcluded` entries.
   */
  predicate Excluded(path: string, numExcluded: int, excludes: Option<seq<string>>)
    requires ExcludeListOk(numExcluded, excludes)
  {
    excludes.Some? && path != [] &&
    exists i :: 0 <= i < numExcluded && excludes.value[i] == path
  }

  method IsExcluded(path: string, numExcluded: int, excludes: Option<seq<string>>) returns (b: bool)
    requires ExcludeListOk(numExcluded, excludes)
    ensures excludes.None? || path == [] ==> !b
    ensures b <==> Excluded(path, numExcluded, excludes)
  {
    if excludes.None? || |path| == 0 {
      return false;
    }
    var i := 0;
    while i < numExcluded
      invariant 0 <= i && (i <= numExcluded || i == 0)
      invariant forall j :: 0 <= j < i ==> excludes.value[j] != path
    {
      if path == excludes.value[i] {
        return true;
      }
      i := i + 1;
    }
    return false;
  }

  // ---------------------------------------------------------------- watch_events

  /** How many of the patterns are not excluded. */
  function CountIncluded(patterns: seq<string>, numExcluded: int, excludes: Option<seq<string>>): (c: nat)
    requires ExcludeListOk(numExcluded, excludes)
    ensures c <= |patterns|
  {
    if patterns == [] then 0
    else
      var last := patterns[|patterns| - 1];
      CountIncluded(patterns[..|patterns| - 1], numExcluded, excludes)
        + (if Excluded(last, numExcluded, excludes) then 0 else 1)
  }

  /** Every pattern is counted exactly when none of them is excluded. */
  lemma {:induction false} CountIncludedAll(patterns: seq<string>, numExcluded: int, excludes: Option<seq<string>>)
    requires ExcludeListOk(numExcluded, excludes)
    ensures CountIncluded(patterns, numExcluded, excludes) == |patterns|
      <==> forall i :: 0 <= i < |patterns| ==> !Excluded(patterns[i], numExcluded, excludes)
  {
    if patterns != [] {
      var init := patterns[..|patterns| - 1];
      CountIncludedAll(init, numExcluded, excludes);
      assert forall i :: 0 <= i < |init| ==> init[i] == patterns[i];
    }
  }

  /** add_watch succeeded for every pattern that is not excluded (it returns -1 on failure). */
  predicate AllWatchesAdded(kernel: seq<int>, patterns: seq<string>, numExcluded: int, excludes: Option<seq<string>>)
    requires |kernel| == |patterns| && ExcludeListOk(numExcluded, excludes)
  {
    forall i :: 0 <= i < |patterns| && !Excluded(patterns[i], numExcluded, excludes) ==> kernel[i] != -1
  }

  /**
   * The table after watch_events: the slot at each non-excluded pattern's own
   * index holds that pattern's entry; every other slot keeps what it held.
   */
  function WatchTable(before: seq<Slot>, kernel: seq<int>, patterns: seq<string>,
                      numExcluded: int, excludes: Option<seq<string>>): seq<Slot>
    requires |kernel| == |patterns| <= |before| && ExcludeListOk(numExcluded, excludes)
  {
    seq(|before|, i requires 0 <= i < |before| =>
      if i < |patterns| && !Excluded(patterns[i], numExcluded, excludes)
      then Some(WatchEntry(kernel[i], i, patterns[i]))
      else before[i])
  }

  /** Extending the pattern prefix by one pattern counts that pattern when it is not excluded. */
  lemma CountStep(patterns: seq<string>, numExcluded: int, excludes: Option<seq<string>>, i: nat)
    requires ExcludeListOk(numExcluded, excludes) && i < |patterns|
    ensures CountIncluded(patterns[..i + 1], numExcluded, excludes)
      == CountIncluded(patterns[..i], numExcluded, excludes) + (if Excluded(patterns[i], numExcluded, excludes) then 0 else 1)
  {
    assert patterns[..i + 1][..i] == patterns[..i];
  }

  /** A failed registration of a non-excluded pattern means not every watch was added. */
  lemma AllWatchesAddedStep(kernel: seq<int>, patterns: seq<string>, numExcluded: int,
                            excludes: Option<seq<string>>, i: nat)
    requires |kernel| == |patterns| && ExcludeListOk(numExcluded, excludes) && i < |patterns|
    requires AllWatchesAdded(kernel[..i], patterns[..i], numExcluded, excludes)
    ensures AllWatchesAdded(kernel[..i + 1], patterns[..i + 1], numExcluded, excludes)
      <==> Excluded(patterns[i], numExcluded, excludes) || kernel[i] != -1
  {
    assert patterns[..i + 1][i] == patterns[i] && kernel[..i + 1][i] == kernel[i];
  }

  /** The as-written table over one more pattern writes that pattern's slot when it is not excluded. */
  lemma WatchTableStep(kernel: seq<int>, patterns: seq<string>, numExcluded: int,
                       excludes: Option<seq<string>>, before: seq<Slot>, i: nat)
    requires |kernel| == |patterns| <= |before| && ExcludeListOk(numExcluded, excludes) && i < |patterns|
    ensures var t := WatchTable(before, kernel[..i], patterns[..i], numExcluded, excludes);
      WatchTable(before, kernel[..i + 1], patterns[..i + 1], numExcluded, excludes)
      == if Excluded(patterns[i], numExcluded, excludes) then t
         else t[i := Some(WatchEntry(kernel[i], i, patterns[i]))]
  {
  }

  /**
   * watch_events: registers a watch per non-excluded pattern, writes its
   * entry at the pattern's index and counts it in the list size. `kernel[i]`
   * is what inotify_add_watch returns for pattern i; -1 ends the process,
   * reported here as `ok == false`.
   */
  method WatchEvents(kernel: seq<int>, patterns: seq<string>, numExcluded: int,
                     excludes: Option<seq<string>>, list: array<Slot>, listSize0: int)
      returns (listSize: int, ok: bool)
    requires |kernel| == |patterns| <= list.Length && ExcludeListOk(numExcluded, excludes)
    modifies list
    ensures forall i :: 0 <= i < list.Length ==>
      list[i] == old(list[i]) || (i < |patterns| && list[i] == Some(WatchEntry(kernel[i], i, patterns[i])))
    ensures ok <==> AllWatchesAdded(kernel, patterns, numExcluded, excludes)
    ensures ok ==> list[..] == WatchTable(old(list[..]), kernel, patterns, numExcluded, excludes)
    ensures ok ==> listSize == listSize0 + CountIncluded(patterns, numExcluded, excludes)
  {
    listSize := listSize0;
    for i := 0 to |patterns|
      invariant list[..] == WatchTable(old(list[..]), kernel[..i], patterns[..i], numExcluded, excludes)
      invariant listSize == listSize0 + CountIncluded(patterns[..i], numExcluded, excludes)
      invariant AllWatchesAdded(kernel[..i], patterns[..i], numExcluded, excludes)
      invariant forall j :: 0 <= j < list.Length ==>
        list[j] == old(list[j]) || (j < |patterns| && list[j] == Some(WatchEntry(kernel[j], j, patterns[j])))
    {
      CountStep(patterns, numExcluded, excludes, i);
      AllWatchesAddedStep(kernel, patterns, numExcluded, excludes, i);
      WatchTableStep(kernel, patterns, numExcluded, excludes, old(list[..]), i);
      var p := patterns[i];
      var excluded := IsExcluded(p, numExcluded, excludes);
      if excluded {
        continue;
      }
      var watchFd := kernel[i];
      if watchFd == -1 {
        assert !AllWatchesAdded(kernel, patterns, numExcluded, excludes);
        return listSize, false;
      }
      list[i] := Some(WatchEntry(watchFd, i, patterns[i]));
      listSize := listSize + 1;
    }
    assert patterns[..|patterns|] == patterns && kernel[..|patterns|] == kernel;
    ok := true;
  }

  // ---------------------------------------------------------------- get_filename

  predicate Matches(slot: Slot, wd: int) {
    slot.Some? && slot.value.watchFd == wd
  }

  /** The first slot in [from, listSize) whose handle is `wd`. */
  function FirstMatch(table: seq<Slot>, listSize: nat, wd: int, from: nat): (r: Option<nat>)
    requires listSize <= |table|
    decreases listSize - from
    ensures r.Some? ==> from <= r.value < listSize && Matches(table[r.value], wd)
    ensures r.Some? ==> forall j :: from <= j < r.value ==> !Matches(table[j], wd)
    ensures r.None? ==> forall j :: from <= j < listSize ==> !Matches(table[j], wd)
  {
    if from >= listSize then None
    else if Matches(table[from], wd) then Some(from)
    else FirstMatch(table, listSize, wd, from + 1)
  }

  /** The path a handle resolves to: the first matching slot's name, or "" when none matches. */
  function Lookup(table: seq<Slot>, listSize: nat, wd: int): string
    requires listSize <= |table|
  {
    match FirstMatch(table, listSize, wd, 0)
    case Some(i) => table[i].value.name
    case None => ""
  }

  /** Every name in the table is a C string. */
  predicate EntriesAreCStrings(table: seq<Slot>) {
    forall i :: 0 <= i < |table| && table[i].Some? ==> NoNul(table[i].value.name)
  }

  /** Copies `src` into `name`, truncated to leave room for the terminator, and terminates it. */
  method CopyName(name: array<char>, src: string)
    requires 1 <= name.Length && NoNul(src)
    modifies name
    ensures name[..] == StrNCpy(src, name.Length - 1) + ['\0']
    ensures CStr(name[..]) == Prefix(src, name.Length - 1)
  {
    StrNCopy(name, src, name.Length - 1);
    name[name.Length - 1] := '\0';
    assert name[..] == name[..name.Length - 1] + ['\0'];
    assert name[..] == StrNCpy(src, name.Length - 1) + ['\0'] + [];
    StrNCpyReadBack(src, name.Length - 1, []);
  }

  /**
   * get_filename: scans the first `listSize` slots for `wd` and copies the
   * match's name into `name`, truncated to `name.Length - 1` characters and
   * terminated; with no match it only empties `name`.
   */
  method GetFilename(list: array<Slot>, listSize: int, wd: int, name: array<char>)
    requires 0 <= listSize <= list.Length && 1 <= name.Length
    requires EntriesAreCStrings(list[..])
    modifies name
    ensures FirstMatch(list[..], listSize, wd, 0).Some? ==>
      name[..] == StrNCpy(list[FirstMatch(list[..], listSize, wd, 0).value].value.name, name.Length - 1) + ['\0']
    ensures FirstMatch(list[..], listSize, wd, 0).None? ==>
      name[0] == '\0' && name[1..] == old(name[1..])
    ensures CStr(name[..]) == Prefix(Lookup(list[..], listSize, wd), name.Length - 1)
  {
    for i := 0 to listSize
      invariant forall j :: 0 <= j < i ==> !Matches(list[j], wd)
    {
      if list[i].Some? && list[i].value.watchFd == wd {
        assert FirstMatch(list[..], listSize, wd, 0) == Some(i);
        assert list[..][i] == list[i];
        CopyName(name, list[i].value.name);
        return;
      }
    }
    assert FirstMatch(list[..], listSize, wd, 0).None?;
    name[0] := '\0';
    assert name[..] == ['\0'] + name[1..];
    assert CStr(name[..]) == [] == Prefix(Lookup(list[..], listSize, wd), name.Length - 1);
  }

  // ---------------------------------------------------------------- the dispatch

  /** What one record's dispatch reads: the table, the exclusions, and which paths stat reports as directories. */
  datatype Config = Config(table: seq<Slot>, listSize: nat, numExcluded: int,
                           excludes: Option<seq<string>>, dirs: set<string>)

  predicate ConfigOk(c: Config) {
    c.listSize <= |c.table| && ExcludeListOk(c.numExcluded, c.excludes)
  }

  /**
   * What the loop changes: the handles whose watch it removed, in order, and
   * the time stamped by each reload it started, with the last one.
   */
  datatype LoopState = LoopState(lastReloadTime: int, removed: seq<int>, reloads: seq<int>)

  /** `event->mask & mask` is not zero: the record carries one of the events the loop acts on. */
  predicate Subscribed(ev: Event) {
    exists bit :: bit in EVENT_MASK && HasBit(ev.mask, bit)
  }

  /** The resolved path as the fixed-size name buffer holds it. */
  function ResolvedName(c: Config, ev: Event): string
    requires ConfigOk(c)
  {
    Prefix(Lookup(c.table, c.listSize, ev.wd), PATH_MAX - 1)
  }

  /** The path of the entry a directory watch reports: directory, "/", entry name. */
  function ChildPath(dir: string, entry: string): string {
    dir + "/" + entry
  }

  /** The record's watch is dropped: its directory child path, or its own path, is excluded. */
  predicate DropsWatch(c: Config, ev: Event)
    requires ConfigOk(c)
  {
    var name := ResolvedName(c, ev);
    (name in c.dirs && Excluded(ChildPath(name, ev.name), c.numExcluded, c.excludes)) ||
    Excluded(name, c.numExcluded, c.excludes)
  }

  /** The dispatch of one record at time `now`. */
  function Step(c: Config, st: LoopState, ev: Event, now: int): LoopState
    requires ConfigOk(c)
  {
    if !Subscribed(ev) then st
    else if DropsWatch(c, ev) then st.(removed := st.removed + [ev.wd])
    else if now - st.lastReloadTime > RELOAD_TIMEOUT then
      st.(lastReloadTime := now, reloads := st.reloads + [now])
    else st
  }

  /** The dispatch of a run of records; record k is handled at time `clock(k)`. */
  function Walk(c: Config, st: LoopState, evs: seq<Event>, clock: nat -> int, k: nat): LoopState
    requires ConfigOk(c)
    decreases |evs|
  {
    if evs == [] then st else Walk(c, Step(c, st, evs[0], clock(k)), evs[1..], clock, k + 1)
  }

  /**
   * Walking the records from offset `p` is dispatching the record at `p`,
   * then walking from the offset just past it.
   */
  lemma WalkAdvance(c: Config, st: LoopState, data: seq<byte>, p: nat, q: nat, clock: nat -> int, k: nat,
                    target: LoopState)
    requires ConfigOk(c) && p < |data| && Tiles(data[p..]) && q == p + RecordSize(data[p..])
    requires Walk(c, st, Records(data[p..]), clock, k) == target
    ensures q <= |data| && Tiles(data[q..])
    ensures Walk(c, Step(c, st, EventAt(data[p..]), clock(k)), Records(data[q..]), clock, k + 1) == target
  {
    var rest := data[p..];
    var tail := rest[RecordSize(rest)..];
    assert tail == data[q..];
    var evs := Records(rest);
    assert evs == [EventAt(rest)] + Records(tail);
    assert evs[0] == EventAt(rest) && evs[1..] == Records(tail);
    assert Walk(c, st, evs, clock, k) == Walk(c, Step(c, st, evs[0], clock(k)), evs[1..], clock, k + 1);
  }

  // ---------------------------------------------------------------- the loop state

  class EventLoop {
    const args: EventArgs
    /** The watch table, one slot per pattern. */
    const list: array<Slot>
    var listSize: int
    /** last_reload_time */
    var lastReloadTime: int
    /** Handles passed to inotify_rm_watch, in call order. */
    var removed: seq<int>
    /** The time stamped by each run_in_background call, in call order. */
    var reloads: seq<int>

    ghost predicate Valid()
      reads this, list
    {
      0 <= listSize <= list.Length && list.Length == |args.patterns| &&
      (forall i :: 0 <= i < |args.patterns| ==> NoNul(args.patterns[i])) &&
      ExcludeListOk(args.numExcluded, args.excludes) && EntriesAreCStrings(list[..])
    }

    function State(): LoopState
      reads this
    {
      LoopState(lastReloadTime, removed, reloads)
    }

    function Cfg(dirs: set<string>): Config
      reads this, list
    {
      Config(list[..], if listSize < 0 then 0 else listSize, args.numExcluded, args.excludes, dirs)
    }

    /**
     * The state handle_events starts from: a fresh table of unwritten slots,
     * a list size of 0 and a last reload time of 0.
     */
    constructor (a: EventArgs)
      requires ExcludeListOk(a.numExcluded, a.excludes)
      requires forall i :: 0 <= i < |a.patterns| ==> NoNul(a.patterns[i])
      ensures Valid() && args == a && fresh(list)
      ensures list[..] == seq(|a.patterns|, _ => None) && listSize == 0
      ensures State() == LoopState(0, [], [])
    {
      args := a;
      list := new Slot[|a.patterns|](_ => None);
      listSize := 0;
      lastReloadTime := 0;
      removed := [];
      reloads := [];
    }

    /** run_in_background: starts a reload and stamps its time as the last reload time. */
    method RunInBackground(now: int)
      modifies this
      ensures lastReloadTime == now && reloads == old(reloads) + [now]
      ensures removed == old(removed) && listSize == old(listSize)
    {
      reloads := reloads + [now];
      lastReloadTime := now;
    }

    /**
     * The part of handle_events before its loop: build the watch table, then
     * start the initial load. `kernel[i]` is inotify_add_watch's answer for
     * pattern i; `ok == false` is the exit on a failed watch.
     */
    method Setup(kernel: seq<int>, now: int) returns (ok: bool)
      requires Valid() && |kernel| == |args.patterns| && listSize == 0
      modifies this, list
      ensures Valid()
      ensures ok <==> AllWatchesAdded(kernel, args.patterns, args.numExcluded, args.excludes)
      ensures ok ==> list[..] == WatchTable(old(list[..]), kernel, args.patterns, args.numExcluded, args.excludes)
      ensures ok ==> listSize == CountIncluded(args.patterns, args.numExcluded, args.excludes)
      ensures ok ==> State() == old(State()).(lastReloadTime := now, reloads := old(reloads) + [now])
    {
      var size;
      size, ok := WatchEvents(kernel, args.patterns, args.numExcluded, args.excludes, list, listSize);
      listSize := if 0 <= size <= list.Length then size else 0;
      if ok {
        RunInBackground(now);
      }
    }

    /** The record's handle resolved into a fresh PATH_MAX buffer, read back as a C string. */
    method Resolve(wd: int) returns (resolved: string)
      requires Valid()
      ensures resolved == Prefix(Lookup(list[..], listSize, wd), PATH_MAX - 1)
    {
      var name := new char[PATH_MAX](_ => '\0');
      GetFilename(list, listSize, wd, name);
      resolved := CStr(name[..]);
    }

    /** The body of the record loop for one record, handled at time `now`. */
    method HandleRecord(ev: Event, dirs: set<string>, now: int)
      requires Valid()
      modifies this
      ensures Valid() && listSize == old(listSize) && Cfg(dirs) == old(Cfg(dirs))
      ensures State() == Step(Cfg(dirs), old(State()), ev, now)
    {
      ghost var c := Cfg(dirs);
      if !Subscribed(ev) {
        return;
      }
      var resolved := Resolve(ev.wd);
      assert resolved == ResolvedName(c, ev);
      var isDir := resolved in dirs;
      if isDir {
        var completePath := resolved + "/" + ev.name;
        var excluded := IsExcluded(completePath, args.numExcluded, args.excludes);
        if excluded {
          assert DropsWatch(c, ev);
          removed := removed + [ev.wd];
          return;
        }
      }
      var excluded := IsExcluded(resolved, args.numExcluded, args.excludes);
      assert excluded == DropsWatch(c, ev);
      if excluded {
        removed := removed + [ev.wd];
        return;
      }
      if now - lastReloadTime > RELOAD_TIMEOUT {
        RunInBackground(now);
      }
    }

    /**
     * The loop body of handle_events: dispatch the record at offset `p`
     * of the bytes read, then step past it by EVENT_SIZE plus its length field.
     */
    method HandleRecordAt(data: seq<byte>, p: nat, dirs: set<string>, now: int) returns (p': nat)
      requires Valid() && p < |data| && Tiles(data[p..])
      modifies this
      ensures Valid() && listSize == old(listSize) && Cfg(dirs) == old(Cfg(dirs))
      ensures State() == Step(Cfg(dirs), old(State()), EventAt(data[p..]), now)
      ensures p' == p + RecordSize(data[p..])
    {
      var ev := EventAt(data[p..]);
      HandleRecord(ev, dirs, now);
      p' := p + EVENT_SIZE + ev.len;
    }

    /**
     * One pass of the read loop: the read returns `bytesRead` bytes into
     * `buf` (-1 ends the process, reported as `ok == false`), then the walk
     * visits each record, advancing by EVENT_SIZE + len.
     */
    method HandleRead(buf: array<byte>, bytesRead: int, dirs: set<string>, clock: nat -> int) returns (ok: bool)
      requires Valid()
      requires bytesRead == -1 || (0 <= bytesRead <= buf.Length && Tiles(buf[..bytesRead]))
      modifies this
      ensures Valid() && listSize == old(listSize)
      ensures ok <==> bytesRead != -1
      ensures !ok ==> State() == old(State())
      ensures ok ==> State() == Walk(Cfg(dirs), old(State()), Records(buf[..bytesRead]), clock, 0)
    {
      if bytesRead == -1 {
        return false;
      }
      var data := buf[..bytesRead];
      ghost var c := Cfg(dirs);
      ghost var target := Walk(c, State(), Records(data), clock, 0);
      var p := 0;
      var k := 0;
      while p < |data|
        invariant 0 <= p <= |data| && Tiles(data[p..])
        invariant Valid() && listSize == old(listSize) && Cfg(dirs) == c
        invariant Walk(c, State(), Records(data[p..]), clock, k) == target
        decreases |data| - p
      {
        ghost var s0, p0, k0 := State(), p, k;
        var now := clock(k);
        p := HandleRecordAt(data, p, dirs, now);
        k := k + 1;
        WalkAdvance(c, s0, data, p0, p, clock, k0, target);
        assert State() == Step(c, s0, EventAt(data[p0..]), clock(k0));
      }
      assert Records(data[p..]) == [];
      return true;
    }
  }

  // ---------------------------------------------------------------- properties of the dispatch

  /** Every event a watch is registered for is one the loop acts on. */
  lemma RegisteredEventsAreSubscribed(ev: Event)
    requires exists bit :: bit in WATCH_MASK && HasBit(ev.mask, bit)
    ensures Subscribed(ev)
  {
  }

  /** The IN_IGNORED record the kernel queues after a watch is removed is skipped. */
  lemma IgnoredRecordIsSkipped(c: Config, st: LoopState, ev: Event, now: int)
    requires ConfigOk(c) && ev.mask == POW2[IN_IGNORED]
    ensures Step(c, st, ev, now) == st
  {
  }

  /**
   * What one record does. Its watch is removed exactly when it is subscribed
   * and its child path or resolved path is excluded; a reload starts exactly
   * when it is subscribed, not dropped, and strictly more than
   * RELOAD_TIMEOUT has passed since the last reload, and it stamps `now`.
   * Nothing else happens.
   */
  lemma StepEffects(c: Config, st: LoopState, ev: Event, now: int)
    requires ConfigOk(c)
    ensures var s := Step(c, st, ev, now);
      && (s.removed == st.removed + [ev.wd] <==> Subscribed(ev) && DropsWatch(c, ev))
      && (s.removed == st.removed || s.removed == st.removed + [ev.wd])
      && (s.reloads == st.reloads + [now] <==>
            Subscribed(ev) && !DropsWatch(c, ev) && now - st.lastReloadTime > RELOAD_TIMEOUT)
      && (s.reloads == st.reloads || s.reloads == st.reloads + [now])
      && s.lastReloadTime == (if s.reloads == st.reloads then st.lastReloadTime else now)
  {
    var s := Step(c, st, ev, now);
    assert st.removed != st.removed + [ev.wd] && st.reloads != st.reloads + [now] by {
      assert |st.removed + [ev.wd]| != |st.removed| && |st.reloads + [now]| != |st.reloads|;
    }
  }

  /**
   * A handle the table cannot resolve reads as the empty path, which is never
   * excluded: unless stat calls "" a directory, the record can start a reload.
   */
  lemma UnresolvedHandleCanReload(c: Config, st: LoopState, ev: Event, now: int)
    requires ConfigOk(c) && Subscribed(ev)
    requires FirstMatch(c.table, c.listSize, ev.wd, 0).None?
    requires "" !in c.dirs
    requires now - st.lastReloadTime > RELOAD_TIMEOUT
    ensures Step(c, st, ev, now) == st.(lastReloadTime := now, reloads := st.reloads + [now])
  {
    assert ResolvedName(c, ev) == "";
  }

  /** Reloads so far are spaced strictly more than RELOAD_TIMEOUT apart, the last one stamped as the last reload time. */
  predicate Debounced(st: LoopState) {
    (|st.reloads| > 0 ==> st.reloads[|st.reloads| - 1] == st.lastReloadTime) &&
    forall i :: 0 < i < |st.reloads| ==> st.reloads[i] - st.reloads[i - 1] > RELOAD_TIMEOUT
  }

  /** One record keeps the reloads debounced: a reload is appended only past the window. */
  lemma StepKeepsDebounced(c: Config, st: LoopState, ev: Event, now: int)
    requires ConfigOk(c) && Debounced(st)
    ensures Debounced(Step(c, st, ev, now))
  {
    if Subscribed(ev) && !DropsWatch(c, ev) && now - st.lastReloadTime > RELOAD_TIMEOUT {
      var r := st.reloads + [now];
      forall i | 0 < i < |r|
        ensures r[i] - r[i - 1] > RELOAD_TIMEOUT
      {
        if i == |r| - 1 {
          assert r[i - 1] == st.reloads[|st.reloads| - 1] == st.lastReloadTime;
        } else {
          assert r[i] == st.reloads[i] && r[i - 1] == st.reloads[i - 1];
        }
      }
    }
  }

  /** The walk keeps the reloads debounced, whatever the clock says. */
  lemma {:induction false} WalkKeepsDebounced(c: Config, st: LoopState, evs: seq<Event>, clock: nat -> int, k: nat)
    requires ConfigOk(c) && Debounced(st)
    ensures Debounced(Walk(c, st, evs, clock, k))
    decreases |evs|
  {
    if evs != [] {
      var s := Step(c, st, evs[0], clock(k));
      StepKeepsDebounced(c, st, evs[0], clock(k));
      WalkKeepsDebounced(c, s, evs[1..], clock, k + 1);
    }
  }

  /** The handles of the records whose watch the walk removes, in order. */
  function DroppedHandles(c: Config, evs: seq<Event>): seq<int>
    requires ConfigOk(c)
  {
    if evs == [] then []
    else
      (if Subscribed(evs[0]) && DropsWatch(c, evs[0]) then [evs[0].wd] else [])
        + DroppedHandles(c, evs[1..])
  }

  /** The records that pass the mask and the exclusions. */
  function Qualifying(c: Config, evs: seq<Event>): nat
    requires ConfigOk(c)
  {
    if evs == [] then 0
    else (if Subscribed(evs[0]) && !DropsWatch(c, evs[0]) then 1 else 0) + Qualifying(c, evs[1..])
  }

  /**
   * Associativity of concatenation, stated apart so that the walk lemmas
   * use it without the solver re-deriving it amid their other facts.
   */
  lemma ConcatAssoc(a: seq<int>, b: seq<int>, c: seq<int>)
    ensures a + (b + c) == (a + b) + c
  {
  }

  /**
   * Each record is dispatched once, in order: the walk removes one watch per
   * dropped record, in record order, whatever the clock and the reload state.
   */
  lemma {:induction false} WalkRemovesDropped(c: Config, st: LoopState, evs: seq<Event>, clock: nat -> int, k: nat)
    requires ConfigOk(c)
    ensures Walk(c, st, evs, clock, k).removed == st.removed + DroppedHandles(c, evs)
    decreases |evs|
  {
    if evs != [] {
      var s := Step(c, st, evs[0], clock(k));
      var d := if Subscribed(evs[0]) && DropsWatch(c, evs[0]) then [evs[0].wd] else [];
      assert s.removed == st.removed + d;
      assert DroppedHandles(c, evs) == d + DroppedHandles(c, evs[1..]);
      assert Walk(c, st, evs, clock, k) == Walk(c, s, evs[1..], clock, k + 1);
      WalkRemovesDropped(c, s, evs[1..], clock, k + 1);
      ConcatAssoc(st.removed, d, DroppedHandles(c, evs[1..]));
    }
  }

  /** The walk only appends reloads, at most one per qualifying record. */
  lemma {:induction false} WalkReloadsBounded(c: Config, st: LoopState, evs: seq<Event>, clock: nat -> int, k: nat)
    requires ConfigOk(c)
    ensures st.reloads <= Walk(c, st, evs, clock, k).reloads
    ensures |Walk(c, st, evs, clock, k).reloads| <= |st.reloads| + Qualifying(c, evs)
    decreases |evs|
  {
    if evs != [] {
      var s := Step(c, st, evs[0], clock(k));
      assert st.reloads <= s.reloads;
      assert |s.reloads| <= |st.reloads| + (if Subscribed(evs[0]) && !DropsWatch(c, evs[0]) then 1 else 0);
      WalkReloadsBounded(c, s, evs[1..], clock, k + 1);
    }
  }

  /** Two records no more than RELOAD_TIMEOUT apart start at most one reload between them. */
  lemma CloseRecordsReloadAtMostOnce(c: Config, st: LoopState, e1: Event, e2: Event, clock: nat -> int, k: nat)
    requires ConfigOk(c)
    requires clock(k + 1) - clock(k) <= RELOAD_TIMEOUT
    ensures st.reloads <= Walk(c, st, [e1, e2], clock, k).reloads
    ensures |Walk(c, st, [e1, e2], clock, k).reloads| <= |st.reloads| + 1
  {
    var s1 := Step(c, st, e1, clock(k));
    var s2 := Step(c, s1, e2, clock(k + 1));
    StepEffects(c, st, e1, clock(k));
    StepEffects(c, s1, e2, clock(k + 1));
    assert [e1, e2][1..] == [e2] && [e2][1..] == [];
    assert Walk(c, st, [e1, e2], clock, k) == Walk(c, s1, [e2], clock, k + 1) == Walk(c, s2, [], clock, k + 2) == s2;
  }

  /** Two qualifying records more than RELOAD_TIMEOUT apart, the first one past the window, both start a reload. */
  lemma SpacedRecordsBothReload(c: Config, st: LoopState, e1: Event, e2: Event, clock: nat -> int, k: nat)
    requires ConfigOk(c)
    requires Subscribed(e1) && !DropsWatch(c, e1) && Subscribed(e2) && !DropsWatch(c, e2)
    requires clock(k) - st.lastReloadTime > RELOAD_TIMEOUT
    requires clock(k + 1) - clock(k) > RELOAD_TIMEOUT
    ensures Walk(c, st, [e1, e2], clock, k).reloads == st.reloads + [clock(k), clock(k + 1)]
  {
    var s1 := Step(c, st, e1, clock(k));
    var s2 := Step(c, s1, e2, clock(k + 1));
    assert [e1, e2][1..] == [e2] && [e2][1..] == [];
    assert Walk(c, st, [e1, e2], clock, k) == Walk(c, s1, [e2], clock, k + 1) == Walk(c, s2, [], clock, k + 2) == s2;
  }

  /**
   * With nothing to exclude (no exclude array, or a count of zero or less),
   * every record the loop acts on -- a file created in a watched directory,
   * say -- starts a reload once the window has passed, stamped with the
   * record's time.
   */
  lemma NothingExcludedReloads(c: Config, st: LoopState, ev: Event, now: int)
    requires ConfigOk(c) && (c.excludes.None? || c.numExcluded <= 0) && Subscribed(ev)
    requires now - st.lastReloadTime > RELOAD_TIMEOUT
    ensures Step(c, st, ev, now) == st.(lastReloadTime := now, reloads := st.reloads + [now])
  {
  }

  /** With nothing to exclude, the walk never removes a watch. */
  lemma {:induction false} NothingExcludedKeepsWatches(c: Config, st: LoopState, evs: seq<Event>,
                                                       clock: nat -> int, k: nat)
    requires ConfigOk(c) && (c.excludes.None? || c.numExcluded <= 0)
    ensures Walk(c, st, evs, clock, k).removed == st.removed
    decreases |evs|
  {
    if evs != [] {
      var s := Step(c, st, evs[0], clock(k));
      assert !DropsWatch(c, evs[0]);
      NothingExcludedKeepsWatches(c, s, evs[1..], clock, k + 1);
    }
  }

  /** A subscribed record whose handle resolves to a directory and whose entry there is excluded. */
  predicate ExcludedChild(c: Config, ev: Event)
    requires ConfigOk(c)
  {
    Subscribed(ev) && ResolvedName(c, ev) in c.dirs &&
    Excluded(ChildPath(ResolvedName(c, ev), ev.name), c.numExcluded, c.excludes)
  }

  /** The handles of a run of records, in order. */
  function Handles(evs: seq<Event>): seq<int> {
    if evs == [] then [] else [evs[0].wd] + Handles(evs[1..])
  }

  /**
   * Records for excluded entries of watched directories never start a
   * reload, however far apart they come: the walk removes one watch per
   * record, in order, and leaves the reloads and the last reload time alone.
   */
  lemma {:induction false} ExcludedChildNeverReloads(c: Config, st: LoopState, evs: seq<Event>,
                                                     clock: nat -> int, k: nat)
    requires ConfigOk(c)
    requires forall i :: 0 <= i < |evs| ==> ExcludedChild(c, evs[i])
    ensures Walk(c, st, evs, clock, k) == st.(removed := st.removed + Handles(evs))
    decreases |evs|
  {
    if evs != [] {
      assert ExcludedChild(c, evs[0]);
      var s := Step(c, st, evs[0], clock(k));
      assert s == st.(removed := st.removed + [evs[0].wd]);
      assert forall i :: 0 <= i < |evs[1..]| ==> evs[1..][i] == evs[i + 1];
      ExcludedChildNeverReloads(c, s, evs[1..], clock, k + 1);
      ConcatAssoc(st.removed, [evs[0].wd], Handles(evs[1..]));
    }
  }

  // ---------------------------------------------------------------- the watch table, as written and compacted

  /**
   * As written, a pattern excluded before a registered one leaves a hole at
   * the front of the table, while the list size counts only registered
   * patterns: the last registered watch falls outside the scanned slots and
   * resolves to "". Its directory's excluded child then starts a reload
   * instead of removing the watch.
   */
  lemma AsWrittenTableLosesWatch(st: LoopState, now: int)
    requires now - st.lastReloadTime > RELOAD_TIMEOUT
    ensures var patterns := ["/w/a", "/w/b"];
      var excludes := Some(["/w/a", "/w/b/tmp.txt"]);
      var table := WatchTable([None, None], [3, 4], patterns, 2, excludes);
      var size := CountIncluded(patterns, 2, excludes);
      var ev := Event(4, POW2[IN_MODIFY], 0, 16, "tmp.txt");
      && table == [None, Some(WatchEntry(4, 1, "/w/b"))]
      && size == 1
      && Lookup(table, size, 4) == ""
      && Step(Config(table, size, 2, excludes, {"/w/b"}), st, ev, now)
           == st.(lastReloadTime := now, reloads := st.reloads + [now])
  {
    var patterns := ["/w/a", "/w/b"];
    var excludes := Some(["/w/a", "/w/b/tmp.txt"]);
    assert excludes.value[0] == "/w/a" && excludes.value[1] == "/w/b/tmp.txt";
    assert Excluded("/w/a", 2, excludes);
    assert !Excluded("/w/b", 2, excludes);
    var table := WatchTable([None, None], [3, 4], patterns, 2, excludes);
    assert table == [None, Some(WatchEntry(4, 1, "/w/b"))];
    assert patterns[..1] == ["/w/a"] && patterns[..1][..0] == [];
    assert CountIncluded(patterns, 2, excludes) == 1;
    assert FirstMatch(table, 1, 4, 0) == None;
    var ev := Event(4, POW2[IN_MODIFY], 0, 16, "tmp.txt");
    assert HasBit(ev.mask, IN_MODIFY);
    var c := Config(table, 1, 2, excludes, {"/w/b"});
    assert ResolvedName(c, ev) == "";
    assert !Excluded("", 2, excludes);
    assert Subscribed(ev) && !DropsWatch(c, ev);
  }

  /** The table with its entries stored one after another, in pattern order. */
  function CompactTable(kernel: seq<int>, patterns: seq<string>, numExcluded: int,
                        excludes: Option<seq<string>>): (t: seq<Slot>)
    requires |kernel| == |patterns| && ExcludeListOk(numExcluded, excludes)
    ensures |t| == CountIncluded(patterns, numExcluded, excludes)
  {
    if patterns == [] then []
    else
      var i := |patterns| - 1;
      CompactTable(kernel[..i], patterns[..i], numExcluded, excludes)
        + (if Excluded(patterns[i], numExcluded, excludes) then []
           else [Some(WatchEntry(kernel[i], i, patterns[i]))])
  }

  /**
   * watch_events with each entry stored at the current list size and the size
   * starting from 0: the first `listSize` slots are then exactly the
   * registered watches.
   */
  method WatchEventsCompact(kernel: seq<int>, patterns: seq<string>, numExcluded: int,
                            excludes: Option<seq<string>>, list: array<Slot>)
      returns (listSize: int, ok: bool)
    requires |kernel| == |patterns| <= list.Length && ExcludeListOk(numExcluded, excludes)
    modifies list
    ensures ok <==> AllWatchesAdded(kernel, patterns, numExcluded, excludes)
    ensures ok ==> listSize == CountIncluded(patterns, numExcluded, excludes)
    ensures ok ==> list[..listSize] == CompactTable(kernel, patterns, numExcluded, excludes)
    ensures ok ==> list[listSize..] == old(list[listSize..])
  {
    listSize := 0;
    for i := 0 to |patterns|
      invariant listSize == CountIncluded(patterns[..i], numExcluded, excludes) <= i
      invariant list[..listSize] == CompactTable(kernel[..i], patterns[..i], numExcluded, excludes)
      invariant list[listSize..] == old(list[listSize..])
      invariant AllWatchesAdded(kernel[..i], patterns[..i], numExcluded, excludes)
    {
      CountStep(patterns, numExcluded, excludes, i);
      AllWatchesAddedStep(kernel, patterns, numExcluded, excludes, i);
      CompactTableStep(kernel, patterns, numExcluded, excludes, i);
      var p := patterns[i];
      var excluded := IsExcluded(p, numExcluded, excludes);
      if !excluded {
        var watchFd := kernel[i];
        if watchFd == -1 {
          assert !AllWatchesAdded(kernel, patterns, numExcluded, excludes);
          return listSize, false;
        }
        listSize := StoreAt(list, listSize, Some(WatchEntry(watchFd, i, patterns[i])));
      }
    }
    assert patterns[..|patterns|] == patterns && kernel[..|patterns|] == kernel;
    ok := true;
  }

  /** Writes `e` into the first slot past the `n` filled ones and returns the new fill count. */
  method StoreAt(list: array<Slot>, n: nat, e: Slot) returns (n': nat)
    requires n < list.Length
    modifies list
    ensures n' == n + 1
    ensures list[..n'] == old(list[..n]) + [e] && list[n'..] == old(list[n'..])
  {
    list[n] := e;
    n' := n + 1;
    assert list[..n'] == old(list[..n]) + [e];
  }

  /** The compact table over one more pattern appends that pattern's entry when it is not excluded. */
  lemma CompactTableStep(kernel: seq<int>, patterns: seq<string>, numExcluded: int,
                         excludes: Option<seq<string>>, i: nat)
    requires |kernel| == |patterns| && ExcludeListOk(numExcluded, excludes) && i < |patterns|
    ensures CompactTable(kernel[..i + 1], patterns[..i + 1], numExcluded, excludes)
      == CompactTable(kernel[..i], patterns[..i], numExcluded, excludes)
         + (if Excluded(patterns[i], numExcluded, excludes) then [] else [Some(WatchEntry(kernel[i], i, patterns[i]))])
  {
    assert patterns[..i + 1][..i] == patterns[..i] && kernel[..i + 1][..i] == kernel[..i];
  }

  /** Slot `q` of `t` holds the watch of a registered pattern, under that pattern's own position. */
  predicate EntryOfPattern(t: seq<Slot>, q: int, kernel: seq<int>, patterns: seq<string>, numExcluded: int,
                           excludes: Option<seq<string>>)
    requires |kernel| == |patterns| && ExcludeListOk(numExcluded, excludes)
  {
    0 <= q < |t| && t[q].Some? && 0 <= t[q].value.index < |patterns| &&
    !Excluded(patterns[t[q].value.index], numExcluded, excludes) &&
    t[q].value == WatchEntry(kernel[t[q].value.index], t[q].value.index, patterns[t[q].value.index])
  }

  /** Every slot of the compact table holds the watch of a registered pattern, under that pattern's position. */
  lemma {:induction false} CompactTableEntries(kernel: seq<int>, patterns: seq<string>, numExcluded: int,
                                               excludes: Option<seq<string>>)
    requires |kernel| == |patterns| && ExcludeListOk(numExcluded, excludes)
    ensures forall q :: 0 <= q < |CompactTable(kernel, patterns, numExcluded, excludes)| ==>
      EntryOfPattern(CompactTable(kernel, patterns, numExcluded, excludes), q, kernel, patterns, numExcluded, excludes)
  {
    if patterns != [] {
      var i := |patterns| - 1;
      var k0, p0 := kernel[..i], patterns[..i];
      CompactTableEntries(k0, p0, numExcluded, excludes);
      var t := CompactTable(kernel, patterns, numExcluded, excludes);
      var t0 := CompactTable(k0, p0, numExcluded, excludes);
      assert t[..|t0|] == t0;
      forall q | 0 <= q < |t|
        ensures EntryOfPattern(t, q, kernel, patterns, numExcluded, excludes)
      {
        if q < |t0| {
          assert EntryOfPattern(t0, q, k0, p0, numExcluded, excludes);
          assert t[q] == t0[q];
        } else {
          assert t[q] == Some(WatchEntry(kernel[i], i, patterns[i]));
        }
      }
    }
  }

  /** A registered pattern sits in the compact table at the number of registered patterns before it. */
  lemma {:induction false} CompactTableAt(kernel: seq<int>, patterns: seq<string>, numExcluded: int,
                                          excludes: Option<seq<string>>, j: nat)
    requires |kernel| == |patterns| && ExcludeListOk(numExcluded, excludes)
    requires j < |patterns| && !Excluded(patterns[j], numExcluded, excludes)
    ensures var t := CompactTable(kernel, patterns, numExcluded, excludes);
      var q := CountIncluded(patterns[..j], numExcluded, excludes);
      q < |t| && t[q] == Some(WatchEntry(kernel[j], j, patterns[j]))
    decreases |patterns|
  {
    var i := |patterns| - 1;
    if j < i {
      CompactTableAt(kernel[..i], patterns[..i], numExcluded, excludes, j);
      assert patterns[..i][..j] == patterns[..j];
    }
  }

  /**
   * The assumption that no two registered patterns name the same object.
   * inotify hands out one handle per watched object, so two patterns naming
   * one object (through a symbolic or hard link) share a handle; this
   * predicate excludes that case.
   */
  predicate HandlesIdentifyPaths(kernel: seq<int>, patterns: seq<string>, numExcluded: int,
                                 excludes: Option<seq<string>>)
    requires |kernel| == |patterns| && ExcludeListOk(numExcluded, excludes)
  {
    forall a, b ::
      (0 <= a < |patterns| && 0 <= b < |patterns| &&
       !Excluded(patterns[a], numExcluded, excludes) && !Excluded(patterns[b], numExcluded, excludes) &&
       kernel[a] == kernel[b])
      ==> patterns[a] == patterns[b]
  }

  /** With the compact table, every registered watch resolves to its own pattern. */
  lemma CompactLookupComplete(kernel: seq<int>, patterns: seq<string>, numExcluded: int,
                              excludes: Option<seq<string>>, j: nat)
    requires |kernel| == |patterns| && ExcludeListOk(numExcluded, excludes)
    requires HandlesIdentifyPaths(kernel, patterns, numExcluded, excludes)
    requires j < |patterns| && !Excluded(patterns[j], numExcluded, excludes)
    ensures var t := CompactTable(kernel, patterns, numExcluded, excludes);
      Lookup(t, |t|, kernel[j]) == patterns[j]
  {
    var t := CompactTable(kernel, patterns, numExcluded, excludes);
    CompactTableAt(kernel, patterns, numExcluded, excludes, j);
    CompactTableEntries(kernel, patterns, numExcluded, excludes);
    var q := CountIncluded(patterns[..j], numExcluded, excludes);
    assert Matches(t[q], kernel[j]);
    var r := FirstMatch(t, |t|, kernel[j], 0);
    assert r.Some?;
    assert EntryOfPattern(t, r.value, kernel, patterns, numExcluded, excludes);
    var a := t[r.value].value.index;
    assert kernel[a] == kernel[j];
  }

  /** The same configuration as the as-written example, built compactly: the excluded child now removes the watch. */
  lemma CompactTableKeepsWatch(st: LoopState, now: int)
    ensures var patterns := ["/w/a", "/w/b"];
      var excludes := Some(["/w/a", "/w/b/tmp.txt"]);
      var table := CompactTable([3, 4], patterns, 2, excludes);
      var ev := Event(4, POW2[IN_MODIFY], 0, 16, "tmp.txt");
      && table == [Some(WatchEntry(4, 1, "/w/b"))]
      && Step(Config(table, 1, 2, excludes, {"/w/b"}), st, ev, now) == st.(removed := st.removed + [4])
  {
    var patterns := ["/w/a", "/w/b"];
    var excludes := Some(["/w/a", "/w/b/tmp.txt"]);
    assert excludes.value[0] == "/w/a" && excludes.value[1] == "/w/b/tmp.txt";
    assert Excluded("/w/a", 2, excludes);
    assert !Excluded("/w/b", 2, excludes);
    assert patterns[..1] == ["/w/a"] && [3, 4][..1] == [3];
    var table := CompactTable([3, 4], patterns, 2, excludes);
    assert table == [Some(WatchEntry(4, 1, "/w/b"))];
    var ev := Event(4, POW2[IN_MODIFY], 0, 16, "tmp.txt");
    assert HasBit(ev.mask, IN_MODIFY);
    assert FirstMatch(table, 1, 4, 0) == Some(0);
    assert ChildPath("/w/b", "tmp.txt") == "/w/b/tmp.txt";
    assert Excluded("/w/b/tmp.txt", 2, excludes);
    ResolvedChildDropsWatch(Config(table, 1, 2, excludes, {"/w/b"}), st, ev, now, 0);
  }

  /**
   * A record for an excluded file inside a directory the table resolves
   * removes that directory's watch: the first matching slot in the scanned
   * part of the table names a directory short enough for the name buffer,
   * and the directory's path, "/", and the record's name is excluded.
   */
  lemma ResolvedChildDropsWatch(c: Config, st: LoopState, ev: Event, now: int, q: nat)
    requires ConfigOk(c) && Subscribed(ev)
    requires FirstMatch(c.table, c.listSize, ev.wd, 0) == Some(q)
    requires |c.table[q].value.name| < PATH_MAX && c.table[q].value.name in c.dirs
    requires Excluded(ChildPath(c.table[q].value.name, ev.name), c.numExcluded, c.excludes)
    ensures Step(c, st, ev, now) == st.(removed := st.removed + [ev.wd])
  {
    var dir := c.table[q].value.name;
    assert Lookup(c.table, c.listSize, ev.wd) == dir;
    assert ResolvedName(c, ev) == dir;
    assert DropsWatch(c, ev);
  }
}
