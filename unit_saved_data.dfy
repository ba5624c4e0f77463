// The database-backed store of per-unit targets: an in-memory map, a list of
// addresses written since the last flush, and a flush step that saves each
// distinct dirty address once. The database itself is reduced to the log of
// records handed to Save.

module SavedData {
  import opened ByteExt
  import opened StatusData
  import opened Optional

  /** The elements of `xs` in order of first occurrence (what Distinct yields). */
  function Distinct(xs: seq<byte>): (d: seq<byte>)
    ensures |d| <= |xs|
  {
    if xs == [] then []
    else
      var p := Distinct(xs[..|xs| - 1]);
      if xs[|xs| - 1] in p then p else p + [xs[|xs| - 1]]
  }

  /** Distinct keeps every element and invents none. */
  lemma {:induction false} DistinctElements(xs: seq<byte>)
    ensures forall a :: a in Distinct(xs) <==> a in xs
    decreases |xs|
  {
    if xs != [] {
      DistinctElements(xs[..|xs| - 1]);
      assert xs == xs[..|xs| - 1] + [xs[|xs| - 1]];
    }
  }

  /** No address appears twice. */
  predicate NoDuplicates(xs: seq<byte>)
  {
    forall i, j :: 0 <= i < j < |xs| ==> xs[i] != xs[j]
  }

  lemma {:induction false} DistinctHasNoDuplicates(xs: seq<byte>)
    ensures NoDuplicates(Distinct(xs))
    decreases |xs|
  {
    if xs != [] {
      DistinctHasNoDuplicates(xs[..|xs| - 1]);
      DistinctElements(xs[..|xs| - 1]);
    }
  }

  /** The first occurrences of a prefix are a prefix of the first occurrences. */
  lemma {:induction false} DistinctOfPrefix(xs: seq<byte>, n: nat)
    requires n <= |xs|
    ensures Distinct(xs[..n]) <= Distinct(xs)
    decreases |xs| - n
  {
    if n < |xs| {
      DistinctOfPrefix(xs, n + 1);
      assert xs[..n + 1][..n] == xs[..n];
    } else {
      assert xs[..n] == xs;
    }
  }

  /** The cache map, keyed by the address as a number. */
  type Cache = map<int, UnitStatusData>

  /** Every address of `ds` is a key of the map. */
  predicate AllKeyed(units: Cache, ds: seq<byte>)
  {
    forall a :: a in ds ==> a as int in units
  }

  /** Every record of the map is stored under its own address. */
  predicate KeyedByOwnAddress(units: Cache)
  {
    forall k :: k in units ==> units[k].Address as int == k
  }

  /** Storing a record under its own address keeps the map keyed that way. */
  lemma KeyedByOwnAddressUpdate(units: Cache, value: UnitStatusData)
    requires KeyedByOwnAddress(units)
    ensures KeyedByOwnAddress(units[value.Address as int := value])
  {
  }

  /** The records Save receives for the addresses `ds`, in order, up to the
      first address the map does not hold (where the lookup throws). */
  function SaveLog(units: Cache, ds: seq<byte>): (log: seq<UnitStatusData>)
    ensures |log| <= |ds|
  {
    if ds == [] || ds[0] as int !in units then [] else [units[ds[0] as int]] + SaveLog(units, ds[1..])
  }

  /** Save k receives the map's current record for the k-th address. */
  lemma {:induction false} SaveLogEntries(units: Cache, ds: seq<byte>, k: nat)
    requires k < |SaveLog(units, ds)|
    ensures ds[k] as int in units && SaveLog(units, ds)[k] == units[ds[k] as int]
    decreases k
  {
    if k > 0 {
      SaveLogEntries(units, ds[1..], k - 1);
    }
  }

  /** With every address keyed, each address of `ds` gets its save. */
  lemma {:induction false} SaveLogSavesAll(units: Cache, ds: seq<byte>)
    requires AllKeyed(units, ds)
    ensures |SaveLog(units, ds)| == |ds|
    decreases |ds|
  {
    if ds != [] {
      assert ds[0] in ds;
      assert forall x :: x in ds[1..] ==> x in ds;
      SaveLogSavesAll(units, ds[1..]);
    }
  }

  lemma {:induction false} SaveLogAppend(units: Cache, ds: seq<byte>, a: byte)
    requires AllKeyed(units, ds)
    ensures SaveLog(units, ds + [a]) == SaveLog(units, ds) + (if a as int in units then [units[a as int]] else [])
    decreases |ds|
  {
    if ds != [] {
      assert ds[0] in ds && (ds + [a])[0] == ds[0];
      assert (ds + [a])[1..] == ds[1..] + [a];
      assert forall x :: x in ds[1..] ==> x in ds;
      SaveLogAppend(units, ds[1..], a);
    } else {
      assert ds + [a] == [a] && [a][1..] == [];
    }
  }

  lemma {:induction false} SaveLogStops(units: Cache, ds: seq<byte>, tail: seq<byte>)
    requires AllKeyed(units, ds)
    requires tail != [] && tail[0] as int !in units
    ensures SaveLog(units, ds + tail) == SaveLog(units, ds)
    decreases |ds|
  {
    if ds != [] {
      assert ds[0] in ds && (ds + tail)[0] == ds[0];
      assert (ds + tail)[1..] == ds[1..] + tail;
      assert forall x :: x in ds[1..] ==> x in ds;
      SaveLogStops(units, ds[1..], tail);
    } else {
      assert ds + tail == tail;
    }
  }

  /** One more address either repeats an earlier one or is its first occurrence. */
  lemma DistinctStep(xs: seq<byte>, i: nat)
    requires i < |xs|
    ensures Distinct(xs[..i + 1]) == if xs[i] in xs[..i] then Distinct(xs[..i]) else Distinct(xs[..i]) + [xs[i]]
  {
    var ys := xs[..i + 1];
    assert ys[..|ys| - 1] == xs[..i] && ys[|ys| - 1] == xs[i];
    DistinctElements(xs[..i]);
  }

  /** One iteration of the flush over an address that is already seen or is
      keyed: the seen set, the keyed prefix and the save log all advance. */
  lemma FlushStep(units: Cache, xs: seq<byte>, i: nat, seen: set<byte>)
    requires i < |xs| && AllKeyed(units, xs[..i])
    requires forall x :: x in seen <==> x in xs[..i]
    requires xs[i] in seen || xs[i] as int in units
    ensures forall x :: x in seen + {xs[i]} <==> x in xs[..i + 1]
    ensures AllKeyed(units, xs[..i + 1])
    ensures SaveLog(units, Distinct(xs[..i + 1]))
         == SaveLog(units, Distinct(xs[..i])) + (if xs[i] in seen then [] else [units[xs[i] as int]])
  {
    assert xs[..i + 1] == xs[..i] + [xs[i]];
    assert forall x :: x in xs[..i + 1] <==> x in xs[..i] || x == xs[i];
    DistinctStep(xs, i);
    if xs[i] !in seen {
      DistinctElements(xs[..i]);
      SaveLogAppend(units, Distinct(xs[..i]), xs[i]);
    }
  }

  /** A first occurrence missing from the map ends the save log for good. */
  lemma SaveLogStopsAt(units: Cache, xs: seq<byte>, i: nat)
    requires i < |xs| && AllKeyed(units, xs[..i])
    requires xs[i] !in xs[..i] && xs[i] as int !in units
    ensures SaveLog(units, Distinct(xs)) == SaveLog(units, Distinct(xs[..i]))
  {
    DistinctOfPrefix(xs, i + 1);
    DistinctStep(xs, i);
    var d := Distinct(xs);
    var p := Distinct(xs[..i]);
    DistinctElements(xs[..i]);
    assert d == p + d[|p|..];
    SaveLogStops(units, p, d[|p|..]);
  }

  class UnitSavedData {
    /** The cached records, keyed by unit address. */
    var Units: Cache
    /** Addresses written since the last flush, with repetitions. */
    var Dirty: seq<byte>
    /** Every record handed to Save, in order. */
    var Saved: seq<UnitStatusData>
    /** The background worker is still running; a failed pass ends it. */
    var WorkerAlive: bool

    /** Starts from the rows already in the database, each under its own
        address, with nothing dirty and the worker running. */
    constructor (loaded: Cache)
      requires forall k :: k in loaded ==> loaded[k].Address as int == k
      ensures Units == loaded && Dirty == [] && Saved == [] && WorkerAlive
      ensures KeyedByAddress() && DirtyKeyed()
    {
      Units := loaded;
      Dirty := [];
      Saved := [];
      WorkerAlive := true;
    }

    /** Every record is stored under its own address. */
    predicate KeyedByAddress()
      reads this
    {
      KeyedByOwnAddress(Units)
    }

    /** Every dirty address is a key of the map, so a flush cannot fail. */
    predicate DirtyKeyed()
      reads this
    {
      AllKeyed(Units, Dirty)
    }

    /** The indexer getter: the stored record, or nothing for an unknown address. */
    function Get(address: byte): (r: Option<UnitStatusData>)
      reads this
      ensures r.Some? <==> address as int in Units
      ensures r.Some? ==> r.value == Units[address as int]
      ensures KeyedByAddress() && r.Some? ==> r.value.Address == address
    {
      if address as int in Units then Some(Units[address as int]) else None
    }

    /** The indexer setter: stores the record and marks the record's own
        address dirty. */
    method Set(address: byte, value: UnitStatusData)
      modifies this`Units, this`Dirty
      ensures Units == old(Units)[address as int := value]
      ensures Dirty == old(Dirty) + [value.Address]
      ensures Get(address) == Some(value)
      ensures forall b :: b != address ==> Get(b) == old(Get(b))
      ensures old(DirtyKeyed()) && address == value.Address ==> DirtyKeyed()
      ensures old(KeyedByAddress()) && address == value.Address ==> KeyedByAddress()
    {
      if KeyedByAddress() && address == value.Address {
        KeyedByOwnAddressUpdate(Units, value);
      }
      Units := Units[address as int := value];
      Dirty := Dirty + [value.Address];
    }

    /** One pass of the background worker: saves the current record of each
        distinct dirty address once, in order of first occurrence, then clears
        the dirty list. A dirty address missing from the map stops the pass
        with the lookup's exception, after the saves before it, and leaves the
        dirty list as it was; the exception ends the worker, so no later pass
        saves anything. */
    method Flush() returns (ok: bool)
      modifies this`Dirty, this`Saved, this`WorkerAlive
      ensures ok <==> old(WorkerAlive) && old(DirtyKeyed())
      ensures WorkerAlive == ok
      ensures !old(WorkerAlive) ==> Saved == old(Saved) && Dirty == old(Dirty)
      ensures old(WorkerAlive) ==> Saved == old(Saved) + SaveLog(Units, Distinct(old(Dirty)))
      ensures ok ==> Dirty == []
      ensures !ok ==> Dirty == old(Dirty)
    {
      if !WorkerAlive {
        return false;
      }
      var dirty, units := Dirty, Units;
      var seen: set<byte> := {};
      var i := 0;
      while i < |dirty|
        invariant 0 <= i <= |dirty| && Dirty == dirty == old(Dirty) && WorkerAlive
        invariant forall x :: x in seen <==> x in dirty[..i]
        invariant AllKeyed(units, dirty[..i])
        invariant Saved == old(Saved) + SaveLog(units, Distinct(dirty[..i]))
      {
        var addr := dirty[i];
        if addr !in seen {
          if addr as int !in units {
            assert addr in dirty;
            SaveLogStopsAt(units, dirty, i);
            WorkerAlive := false;
            return false;
          }
          FlushStep(units, dirty, i, seen);
          Saved := Saved + [units[addr as int]];
          seen := seen + {addr};
        } else {
          FlushStep(units, dirty, i, seen);
        }
        i := i + 1;
      }
      assert dirty[..i] == dirty;
      Dirty := [];
      return true;
    }
  }
}
