/** The tool that rewrites a hardware trace in the order of its time stamps. */
module ReorderHardware {
  import opened Bytes
  import opened StreamableOutfiles
  import opened HardwareAccesses
  import opened HardwareFiles

  datatype Outcome = Written(contents: seq<byte>) | Rejected(magic: uint64)

  ghost predicate SortedByTsc(l: seq<HardwareAccess>) {
    forall i, j :: 0 <= i < j < |l| ==> l[i].tsc <= l[j].tsc
  }

  /** The accesses of one time stamp, in order. */
  ghost function WithTsc(l: seq<HardwareAccess>, tsc: uint64): seq<HardwareAccess> {
    if l == [] then []
    else WithTsc(l[..|l| - 1], tsc) + if l[|l| - 1].tsc == tsc then [l[|l| - 1]] else []
  }

  /** What a stable sort is, whoever computes it. */
  ghost predicate IsStableSortOf(sorted: seq<HardwareAccess>, l: seq<HardwareAccess>) {
    && SortedByTsc(sorted)
    && multiset(sorted) == multiset(l)
    && forall tsc :: WithTsc(sorted, tsc) == WithTsc(l, tsc)
  }

  /** multimap::insert: a new element goes behind those with an equal key. */
  function Insert(l: seq<HardwareAccess>, a: HardwareAccess): (r: seq<HardwareAccess>)
    ensures multiset(r) == multiset(l) + multiset{a}
  {
    if l == [] then [a]
    else
      var last := l[|l| - 1];
      assert l == l[..|l| - 1] + [last];
      if last.tsc <= a.tsc then l + [a] else Insert(l[..|l| - 1], a) + [last]
  }

  /** The multimap after inserting a whole list. */
  function StableSort(l: seq<HardwareAccess>): (r: seq<HardwareAccess>)
    ensures multiset(r) == multiset(l)
  {
    if l == [] then []
    else
      assert l == l[..|l| - 1] + [l[|l| - 1]];
      Insert(StableSort(l[..|l| - 1]), l[|l| - 1])
  }

  lemma {:induction false} InsertMembers(l: seq<HardwareAccess>, a: HardwareAccess)
    ensures forall b <- Insert(l, a) :: b in l || b == a
  {
    forall b | b in Insert(l, a) ensures b in l || b == a {
      assert b in multiset(Insert(l, a));
    }
  }

  lemma SortedSnoc(l: seq<HardwareAccess>, a: HardwareAccess)
    requires SortedByTsc(l) && forall b <- l :: b.tsc <= a.tsc
    ensures SortedByTsc(l + [a])
  {
  }

  lemma SortedInit(l: seq<HardwareAccess>)
    requires SortedByTsc(l) && l != []
    ensures SortedByTsc(l[..|l| - 1]) && forall b <- l :: b.tsc <= l[|l| - 1].tsc
  {
  }

  lemma {:induction false} InsertSorted(l: seq<HardwareAccess>, a: HardwareAccess)
    requires SortedByTsc(l)
    ensures SortedByTsc(Insert(l, a))
  {
    if l == [] {
    } else {
      var init, last := l[..|l| - 1], l[|l| - 1];
      SortedInit(l);
      hide SortedByTsc;
      if last.tsc <= a.tsc {
        SortedSnoc(l, a);
      } else {
        InsertSorted(init, a);
        InsertMembers(init, a);
        SortedSnoc(Insert(init, a), last);
      }
    }
  }

  lemma WithTscSnoc(l: seq<HardwareAccess>, a: HardwareAccess, tsc: uint64)
    ensures a.tsc == tsc ==> WithTsc(l + [a], tsc) == WithTsc(l, tsc) + [a]
    ensures a.tsc != tsc ==> WithTsc(l + [a], tsc) == WithTsc(l, tsc)
  {
    assert (l + [a])[..|l|] == l;
  }

  /** Inserting appends to the accesses of the same time stamp and leaves the others alone. */
  lemma {:induction false} InsertStable(l: seq<HardwareAccess>, a: HardwareAccess, tsc: uint64)
    requires SortedByTsc(l)
    ensures WithTsc(Insert(l, a), tsc) == WithTsc(l + [a], tsc)
  {
    if l != [] && a.tsc < l[|l| - 1].tsc {
      var init, last := l[..|l| - 1], l[|l| - 1];
      assert l == init + [last];
      SortedInit(l);
      InsertStable(init, a, tsc);
      hide WithTsc;
      WithTscSnoc(Insert(init, a), last, tsc);
      WithTscSnoc(init, a, tsc);
      WithTscSnoc(init, last, tsc);
      WithTscSnoc(l, a, tsc);
    } else {
      assert [] + [a] == [a];
    }
  }

  lemma {:induction false} StableSortSorted(l: seq<HardwareAccess>)
    ensures SortedByTsc(StableSort(l))
  {
    hide SortedByTsc;
    if l == [] {
      EmptySorted();
    } else {
      StableSortSorted(l[..|l| - 1]);
      InsertSorted(StableSort(l[..|l| - 1]), l[|l| - 1]);
    }
  }

  lemma EmptySorted()
    ensures SortedByTsc([])
  {
  }

  lemma {:induction false} StableSortKeepsTies(l: seq<HardwareAccess>, tsc: uint64)
    ensures WithTsc(StableSort(l), tsc) == WithTsc(l, tsc)
  {
    if l == [] {
    } else {
      var init, last := l[..|l| - 1], l[|l| - 1];
      assert l == init + [last];
      StableSortKeepsTies(init, tsc);
      StableSortSorted(init);
      InsertStable(StableSort(init), last, tsc);
      hide WithTsc;
      hide SortedByTsc;
      WithTscSnoc(StableSort(init), last, tsc);
      WithTscSnoc(init, last, tsc);
    }
  }

  /** The multimap that the tool fills is the stable sort of what it read. */
  lemma StableSortIsStable(l: seq<HardwareAccess>)
    ensures IsStableSortOf(StableSort(l), l)
  {
    StableSortSorted(l);
    forall tsc ensures WithTsc(StableSort(l), tsc) == WithTsc(l, tsc) {
      StableSortKeepsTies(l, tsc);
    }
  }

  lemma {:induction false} WithTscMembers(l: seq<HardwareAccess>, tsc: uint64)
    ensures forall a :: a in WithTsc(l, tsc) <==> a in l && a.tsc == tsc
  {
    if l == [] {
    } else {
      WithTscMembers(l[..|l| - 1], tsc);
      assert l == l[..|l| - 1] + [l[|l| - 1]];
    }
  }

  lemma DropLast<T>(u: seq<T>, v: seq<T>, x: T)
    requires u + [x] == v + [x]
    ensures u == v
  {
    assert u == (u + [x])[..|u + [x]| - 1] == (v + [x])[..|v + [x]| - 1] == v;
  }

  lemma WithTscDropLast(s: seq<HardwareAccess>, t: seq<HardwareAccess>, a: HardwareAccess, tsc: uint64)
    requires WithTsc(s + [a], tsc) == WithTsc(t + [a], tsc)
    ensures WithTsc(s, tsc) == WithTsc(t, tsc)
  {
    WithTscSnoc(s, a, tsc);
    WithTscSnoc(t, a, tsc);
    if a.tsc == tsc {
      DropLast(WithTsc(s, tsc), WithTsc(t, tsc), a);
    }
  }

  lemma SomeWithTsc(l: seq<HardwareAccess>)
    requires l != []
    ensures WithTsc(l, l[0].tsc) != []
  {
    WithTscMembers(l, l[0].tsc);
    assert l[0] in WithTsc(l, l[0].tsc);
  }

  lemma LastWithTsc(l: seq<HardwareAccess>)
    requires l != []
    ensures var own := WithTsc(l, l[|l| - 1].tsc); own != [] && own[|own| - 1] == l[|l| - 1]
  {
  }

  lemma LastTscAtMost(s: seq<HardwareAccess>, t: seq<HardwareAccess>)
    requires s != [] && t != [] && SortedByTsc(t)
    requires WithTsc(s, s[|s| - 1].tsc) == WithTsc(t, s[|s| - 1].tsc)
    ensures s[|s| - 1].tsc <= t[|t| - 1].tsc
  {
    LastWithTsc(s);
    WithTscMembers(t, s[|s| - 1].tsc);
    hide WithTsc;
    var own := WithTsc(s, s[|s| - 1].tsc);
    assert own[|own| - 1] in own;
  }

  lemma LastOfSorted(s: seq<HardwareAccess>, t: seq<HardwareAccess>)
    requires s != [] && t != [] && SortedByTsc(s) && SortedByTsc(t)
    requires forall tsc :: WithTsc(s, tsc) == WithTsc(t, tsc)
    ensures s[|s| - 1] == t[|t| - 1]
  {
    hide WithTsc;
    hide SortedByTsc;
    LastTscAtMost(s, t);
    LastTscAtMost(t, s);
    LastWithTsc(s);
    LastWithTsc(t);
  }

  /** A list has one stable sort only, so `IsStableSortOf` pins the output down completely. */
  lemma {:induction false} StableSortUnique(s: seq<HardwareAccess>, t: seq<HardwareAccess>)
    requires SortedByTsc(s) && SortedByTsc(t)
    requires forall tsc :: WithTsc(s, tsc) == WithTsc(t, tsc)
    ensures s == t
    decreases |s|
  {
    hide WithTsc;
    hide SortedByTsc;
    if s == [] || t == [] {
      NothingWithTsc();
      if s != [] {
        SomeWithTsc(s);
      } else if t != [] {
        SomeWithTsc(t);
      }
    } else {
      LastOfSorted(s, t);
      SortedInit(s);
      SortedInit(t);
      var a, s', t' := s[|s| - 1], s[..|s| - 1], t[..|t| - 1];
      assert s == s' + [a] && t == t' + [a];
      forall tsc ensures WithTsc(s', tsc) == WithTsc(t', tsc) {
        WithTscDropLast(s', t', a, tsc);
      }
      StableSortUnique(s', t');
    }
  }

  lemma NothingWithTsc()
    ensures forall tsc :: WithTsc([], tsc) == []
  {
  }

  /** Header of every file the tool writes: the magic number and version 0. */
  function Header(): (h: seq<byte>)
    ensures |h| == HARDWARE_FILE_HEADER_SIZE
  {
    EncodeUint64(HARDWARE_FILE_MAGIC) + EncodeUint32(0)
  }

  /** The accesses that reading a whole file delivers. */
  function Accesses(contents: seq<byte>): seq<HardwareAccess> {
    if |contents| < HARDWARE_FILE_HEADER_SIZE then [] else DecodeAll(contents, HARDWARE_FILE_HEADER_SIZE)
  }

  predicate Recognised(contents: seq<byte>) {
    HARDWARE_FILE_HEADER_SIZE <= |contents| ==> Uint64At(contents, 0) == HARDWARE_FILE_MAGIC
  }

  lemma AccessesEncodable(contents: seq<byte>)
    ensures forall a <- Accesses(contents) :: a.IsValid() && a.Encodable()
    ensures forall a <- StableSort(Accesses(contents)) :: a.IsValid() && a.Encodable()
  {
    if HARDWARE_FILE_HEADER_SIZE <= |contents| {
      DecodedAreEncodable(contents, HARDWARE_FILE_HEADER_SIZE);
    }
    forall a | a in StableSort(Accesses(contents)) ensures a.IsValid() && a.Encodable() {
      assert a in multiset(StableSort(Accesses(contents)));
      assert a in multiset(Accesses(contents));
    }
  }

  /** The file that holds the stable sort of the accesses of another one. */
  ghost function Reordered(contents: seq<byte>): seq<byte> {
    AccessesEncodable(contents);
    FileOf(StableSort(Accesses(contents)))
  }

  function FileOf(l: seq<HardwareAccess>): seq<byte>
    requires forall a <- l :: a.Encodable()
  {
    Header() + EncodeAll(l)
  }

  lemma InsertNext(all: seq<HardwareAccess>, k: nat, a: HardwareAccess, rest: seq<HardwareAccess>)
    requires k <= |all| && all[k..] == [a] + rest
    ensures k < |all| && all[k + 1..] == rest
    ensures StableSort(all[..k + 1]) == Insert(StableSort(all[..k]), a)
  {
    FirstOfRest(all, k, a, rest);
    hide Insert;
  }

  lemma FirstOfRest<T>(all: seq<T>, k: nat, a: T, rest: seq<T>)
    requires k <= |all| && all[k..] == [a] + rest
    ensures k < |all| && all[k] == a && all[k + 1..] == rest
    ensures all[..k + 1] != [] && all[..k + 1][..k] == all[..k] && all[..k + 1][k] == a
  {
    assert all[k] == all[k..][0] == a && all[k + 1..] == all[k..][1..];
  }

  lemma WholePrefix<T>(l: seq<T>, k: nat)
    requires k <= |l| && l[k..] == []
    ensures l[..k] == l
  {
  }

  /** The reading loop: every valid access goes into the multimap. */
  method ReadAccesses(file: HardwareFile) returns (accesses: seq<HardwareAccess>)
    requires file.Ready()
    modifies file, file.file
    ensures accesses == StableSort(old(file.Remaining()))
  {
    accesses := [];
    ghost var all, k := file.Remaining(), 0;
    var access := file.Next();
    while access.IsValid()
      invariant file.Ready() && access == file.current
      invariant 0 <= k <= |all| && accesses == StableSort(all[..k])
      invariant all[k..] == if access.IsValid() then [access] + file.Remaining() else []
      decreases |all| - k
    {
      InsertNext(all, k, access, file.Remaining());
      accesses := Insert(accesses, file.current);
      k := k + 1;
      access := file.Next();
    }
    WholePrefix(all, k);
  }

  method WriteAccess(out: StreamableOutfile, a: HardwareAccess)
    requires a.Encodable()
    modifies out
    ensures out.contents == old(out.contents) + Encode(a)
  {
    out.WriteUint64(a.tsc);
    out.WriteUint64(a.physicalAddress);
    out.WriteUint64(a.kind);
    out.WriteUint64(a.deviceId);
    out.WriteUint32(a.deviceInstance);
    out.WriteVector(a.data);
  }

  lemma EncodeAllNext(start: seq<byte>, l: seq<HardwareAccess>, i: nat)
    requires i < |l| && forall a <- l :: a.Encodable()
    ensures start + EncodeAll(l[..i]) + Encode(l[i]) == start + EncodeAll(l[..i + 1])
  {
    assert l[..i + 1] == l[..i] + [l[i]];
    EncodeAllSnoc(l[..i], l[i]);
  }

  /** The writing loop, with the order check it makes on the way. */
  method WriteAccesses(out: StreamableOutfile, accesses: seq<HardwareAccess>)
    requires SortedByTsc(accesses) && forall a <- accesses :: a.Encodable()
    modifies out
    ensures out.contents == old(out.contents) + EncodeAll(accesses)
  {
    ghost var start := out.contents;
    var currentTsc := 0;
    for i := 0 to |accesses|
      invariant out.contents == start + EncodeAll(accesses[..i])
      invariant i < |accesses| ==> currentTsc <= accesses[i].tsc
    {
      var a := accesses[i];
      assert currentTsc <= a.tsc;
      WriteAccess(out, a);
      EncodeAllNext(start, accesses, i);
      currentTsc := a.tsc;
    }
    assert accesses[..|accesses|] == accesses;
  }

  method OpenOutput() returns (out: StreamableOutfile)
    ensures fresh(out) && out.contents == Header()
  {
    out := new StreamableOutfile();
    out.WriteUint64(HARDWARE_FILE_MAGIC);
    out.WriteUint32(0);
  }

  /** The whole tool. A bad magic number is an exception; a file too short for a header reads as empty. */
  method Reorder(source: seq<byte>) returns (r: Outcome)
    requires |source| < TWO_TO_THE_63
    ensures r == if Recognised(source) then Written(Reordered(source)) else Rejected(Uint64At(source, 0))
  {
    hide DecodeAll;
    hide Encode;
    hide Header;
    var file := new HardwareFile(source);
    var status := file.Load();
    if status.WrongMagic? {
      return Rejected(status.actual);
    }
    var out := OpenOutput();
    assert file.Remaining() == Accesses(source);
    var accesses := ReadAccesses(file);
    AccessesEncodable(source);
    StableSortIsStable(Accesses(source));
    WriteAccesses(out, accesses);
    r := Written(out.contents);
  }

  /** An encoded list, cut at its first zero time stamp, is what a reader of the file delivers. */
  lemma {:induction false} EncodedFileDecodes(prefix: seq<HardwareAccess>, rest: seq<HardwareAccess>)
    requires forall a <- prefix :: a.tsc != 0 && a.Encodable()
    requires forall a <- rest :: a.Encodable()
    requires rest == [] || rest[0].tsc == 0
    ensures Accesses(Header() + (EncodeAll(prefix) + EncodeAll(rest))) == prefix
  {
    hide Encode;
    hide DecodeAll;
    hide Header;
    var contents := Header() + (EncodeAll(prefix) + EncodeAll(rest));
    var o, end := HARDWARE_FILE_HEADER_SIZE, HARDWARE_FILE_HEADER_SIZE + |EncodeAll(prefix)|;
    assert HoldsAt(contents, o, EncodeAll(prefix) + EncodeAll(rest));
    HoldsAtSplit(contents, o, EncodeAll(prefix), EncodeAll(rest));
    StreamRoundTrip(contents, o, prefix, end);
    if rest == [] {
      NothingPastTheEnd(contents, end);
    } else {
      HoldsAtSplit(contents, end, Encode(rest[0]), EncodeAll(rest[1..]));
      StopsAtInvalid(contents, end, rest[0]);
    }
  }

  /** Every output begins with the magic number and version 0, in 12 bytes. */
  lemma HeaderRecognised(body: seq<byte>)
    ensures Recognised(Header() + body)
    ensures Uint64At(Header() + body, 0) == 0x68636e79734e5652 && Uint32At(Header() + body, 8) == 0
    ensures |Header()| == 12
  {
    HoldsAtSplit(Header() + body, 0, EncodeUint64(HARDWARE_FILE_MAGIC), EncodeUint32(0));
    Uint64RoundTrip(Header() + body, 0, HARDWARE_FILE_MAGIC);
    Uint32RoundTrip(Header() + body, 8, 0);
  }

  /** For every input: the output is a trace whose accesses are the stable sort of those of the input. */
  lemma ReorderedIsStableSort(source: seq<byte>)
    ensures Recognised(Reordered(source))
    ensures 12 <= |Reordered(source)|
    ensures Uint64At(Reordered(source), 0) == 0x68636e79734e5652 && Uint32At(Reordered(source), 8) == 0
    ensures IsStableSortOf(Accesses(Reordered(source)), Accesses(source))
  {
    hide DecodeAll;
    hide Encode;
    hide Header;
    hide Accesses;
    hide IsStableSortOf;
    AccessesEncodable(source);
    var sorted := StableSort(Accesses(source));
    HeaderRecognised(EncodeAll(sorted));
    assert Reordered(source) == Header() + (EncodeAll(sorted) + EncodeAll([]));
    EncodedFileDecodes(sorted, []);
    StableSortIsStable(Accesses(source));
  }

  /** Running the tool on its own output reproduces it byte for byte, for every input. */
  lemma ReorderIdempotent(source: seq<byte>)
    ensures Reordered(Reordered(source)) == Reordered(source)
  {
    var once := Accesses(Reordered(source));
    ReorderedIsStableSort(source);
    StableSortIsStable(once);
    StableSortUnique(StableSort(once), once);
    AccessesEncodable(source);
    var sorted := StableSort(Accesses(source));
    StableSortIsStable(Accesses(source));
    StableSortUnique(once, sorted);
  }
}
