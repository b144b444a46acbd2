/** The connection hash of src/ws/ws_connection.c: 256 buckets of (fd, slot) entries, searched linearly. It is
    a multiset of entries; as long as no descriptor is entered twice it refines a map from descriptors to
    slots, which is how the slot life cycle uses it. */
module ConnHash {
  import opened Common

  type Fd = nat

  datatype Entry = Entry(fd: Fd, slot: nat)

  /** The bucket with entry i replaced by the last one. */
  function Without(bucket: seq<Entry>, i: nat): seq<Entry>
    requires i < |bucket|
  {
    var n := |bucket| - 1;
    if i < n then bucket[i := bucket[n]][..n] else bucket[..n]
  }

  /** Moving the last entry into the gap takes exactly one entry out. */
  lemma RemoveOne(bucket: seq<Entry>, i: nat)
    requires i < |bucket|
    ensures multiset(Without(bucket, i)) == multiset(bucket) - multiset{bucket[i]}
  {
    var n := |bucket| - 1;
    assert bucket == bucket[..n] + [bucket[n]];
    if i < n {
      var head := bucket[..n];
      assert Without(bucket, i) == head[i := bucket[n]];
      assert multiset(head[i := bucket[n]]) == multiset(head) - multiset{bucket[i]} + multiset{bucket[n]};
    }
  }

  lemma AddOne(bucket: seq<Entry>, e: Entry)
    ensures multiset(bucket + [e]) == multiset(bucket) + multiset{e}
  {
  }

  /** These entries are a map: each binding once and nothing else. */
  ghost predicate IsMap(entries: multiset<Entry>, table: map<Fd, nat>) {
    forall e: Entry :: entries[e] == if e.fd in table && table[e.fd] == e.slot then 1 else 0
  }

  lemma MapInsert(entries: multiset<Entry>, table: map<Fd, nat>, fd: Fd, slot: nat)
    requires IsMap(entries, table) && fd !in table
    ensures IsMap(entries + multiset{Entry(fd, slot)}, table[fd := slot])
  {
  }

  lemma MapRemove(entries: multiset<Entry>, table: map<Fd, nat>, fd: Fd, slot: nat)
    requires IsMap(entries, table) && Entry(fd, slot) in entries
    ensures fd in table && table[fd] == slot && IsMap(entries - multiset{Entry(fd, slot)}, table - {fd})
  {
    assert entries[Entry(fd, slot)] > 0;
  }

  lemma MapMisses(entries: multiset<Entry>, table: map<Fd, nat>, fd: Fd)
    requires IsMap(entries, table) && forall slot: nat :: Entry(fd, slot) !in entries
    ensures fd !in table
  {
    assert fd in table ==> entries[Entry(fd, table[fd])] == 1;
  }

  /** Every entry lies in the bucket of its fd. */
  ghost predicate Laid(buckets: seq<seq<Entry>>, entries: multiset<Entry>, bucketOf: Fd -> nat) {
    && |buckets| == 256
    && (forall fd: Fd :: bucketOf(fd) < 256)
    && (forall b, i | 0 <= b < 256 && 0 <= i < |buckets[b]| :: bucketOf(buckets[b][i].fd) == b)
    && (forall e: Entry :: entries[e] == multiset(buckets[bucketOf(e.fd)])[e])
  }

  lemma LaidInsert(buckets: seq<seq<Entry>>, entries: multiset<Entry>, bucketOf: Fd -> nat, e: Entry)
    requires Laid(buckets, entries, bucketOf)
    ensures var b := bucketOf(e.fd);
            b < 256 && Laid(buckets[b := buckets[b] + [e]], entries + multiset{e}, bucketOf)
  {
    AddOne(buckets[bucketOf(e.fd)], e);
  }

  lemma LaidRemove(buckets: seq<seq<Entry>>, entries: multiset<Entry>, bucketOf: Fd -> nat, b: nat, i: nat)
    requires Laid(buckets, entries, bucketOf) && b < 256 && i < |buckets[b]|
    ensures Laid(buckets[b := Without(buckets[b], i)], entries - multiset{buckets[b][i]}, bucketOf)
  {
    RemoveOne(buckets[b], i);
    assert bucketOf(buckets[b][i].fd) == b;
  }

  lemma InsertMaps(entries: multiset<Entry>, fd: Fd, slot: nat)
    ensures forall table: map<Fd, nat> :: IsMap(entries, table) && fd !in table ==>
              IsMap(entries + multiset{Entry(fd, slot)}, table[fd := slot])
  {
    forall table: map<Fd, nat> | IsMap(entries, table) && fd !in table
      ensures IsMap(entries + multiset{Entry(fd, slot)}, table[fd := slot])
    {
      MapInsert(entries, table, fd, slot);
    }
  }

  lemma RemoveMaps(entries: multiset<Entry>, fd: Fd, slot: nat)
    requires Entry(fd, slot) in entries
    ensures forall table: map<Fd, nat> :: IsMap(entries, table) ==>
              fd in table && table[fd] == slot && IsMap(entries - multiset{Entry(fd, slot)}, table - {fd})
  {
    forall table: map<Fd, nat> | IsMap(entries, table)
      ensures fd in table && table[fd] == slot && IsMap(entries - multiset{Entry(fd, slot)}, table - {fd})
    {
      MapRemove(entries, table, fd, slot);
    }
  }

  lemma MissMaps(entries: multiset<Entry>, fd: int)
    requires fd < 0 || forall slot: nat :: Entry(fd, slot) !in entries
    ensures forall table: map<Fd, nat> :: IsMap(entries, table) ==> fd !in table && table - {fd} == table
  {
    forall table: map<Fd, nat> | IsMap(entries, table) ensures fd !in table && table - {fd} == table {
      if fd >= 0 {
        MapMisses(entries, table, fd);
      }
    }
  }

  class Hash {
    /** The high byte of the hash of an fd. */
    const bucketOf: Fd -> nat
    var buckets: seq<seq<Entry>>
    var capacities: seq<nat>
    ghost var entries: multiset<Entry>

    ghost predicate Valid()
      reads this
    {
      && Laid(buckets, entries, bucketOf) && |buckets| == |capacities| == 256
      && (forall b | 0 <= b < 256 :: |buckets[b]| <= capacities[b])
    }

    constructor (bucketOf: Fd -> nat)
      requires forall fd: Fd :: bucketOf(fd) < 256
      ensures Valid() && entries == multiset{} && this.bucketOf == bucketOf
    {
      this.bucketOf := bucketOf;
      buckets, capacities := seq(256, _ => []), seq(256, _ => 0);
      entries := multiset{};
    }

    /** ws_connection_hash_insert: one entry more, even for an fd that has one already. */
    method Insert(fd: Fd, slot: nat)
      requires Valid()
      modifies this
      ensures Valid() && entries == old(entries) + multiset{Entry(fd, slot)}
      ensures forall table: map<Fd, nat> :: IsMap(old(entries), table) && fd !in table ==> IsMap(entries, table[fd := slot])
    {
      hide IsMap, Laid;
      var b := bucketOf(fd);
      LaidInsert(buckets, entries, bucketOf, Entry(fd, slot));
      InsertMaps(entries, fd, slot);
      if capacities[b] == 0 {
        capacities := capacities[b := 32];
      } else if |buckets[b]| >= capacities[b] {
        capacities := capacities[b := capacities[b] * 2];
      }
      buckets := buckets[b := buckets[b] + [Entry(fd, slot)]];
      entries := entries + multiset{Entry(fd, slot)};
    }

    /** The search common to find, find_and_ref and remove. */
    method Search(fd: Fd) returns (b: nat, i: nat)
      requires Valid()
      ensures b == bucketOf(fd) < 256 && i <= |buckets[b]|
      ensures i < |buckets[b]| ==> buckets[b][i].fd == fd && buckets[b][i] in entries
      ensures i == |buckets[b]| ==> forall slot: nat :: Entry(fd, slot) !in entries
    {
      b, i := bucketOf(fd), 0;
      while i < |buckets[b]| && buckets[b][i].fd != fd
        invariant i <= |buckets[b]| && forall j | 0 <= j < i :: buckets[b][j].fd != fd
      {
        i := i + 1;
      }
      if i == |buckets[b]| {
        forall slot: nat ensures Entry(fd, slot) !in entries {
          assert entries[Entry(fd, slot)] == multiset(buckets[b])[Entry(fd, slot)];
          assert Entry(fd, slot) !in buckets[b];
        }
      } else {
        assert entries[buckets[b][i]] == multiset(buckets[b])[buckets[b][i]];
      }
    }

    /** ws_connection_hash_find */
    method Find(fd: int) returns (r: Option<nat>)
      requires Valid()
      ensures r.Some? ==> fd >= 0 && Entry(fd, r.value) in entries
      ensures r.None? && fd >= 0 ==> forall slot: nat :: Entry(fd, slot) !in entries
      ensures forall table: map<Fd, nat> :: IsMap(entries, table) ==> r == if fd in table then Some(table[fd]) else None
    {
      hide IsMap, Laid;
      if fd < 0 {
        MissMaps(entries, fd);
        return None;
      }
      var b, i := Search(fd);
      if i < |buckets[b]| {
        RemoveMaps(entries, fd, buckets[b][i].slot);
        r := Some(buckets[b][i].slot);
      } else {
        MissMaps(entries, fd);
        r := None;
      }
    }

    /** ws_connection_hash_remove: the last entry takes the place of the removed one. */
    method Remove(fd: int) returns (r: int, ghost slot: nat)
      requires Valid()
      modifies this
      ensures Valid() && (r == 0 || r == -1)
      ensures r == 0 ==> fd >= 0 && Entry(fd, slot) in old(entries) && entries == old(entries) - multiset{Entry(fd, slot)}
      ensures r == -1 ==> entries == old(entries) && forall s: nat :: fd >= 0 ==> Entry(fd, s) !in entries
      ensures forall table: map<Fd, nat> :: IsMap(old(entries), table) ==> IsMap(entries, table - {fd}) && (r == 0 <==> fd in table)
    {
      hide IsMap, Laid;
      slot := 0;
      if fd < 0 {
        MissMaps(entries, fd);
        return -1, 0;
      }
      var b, i := Search(fd);
      if i == |buckets[b]| {
        MissMaps(entries, fd);
        return -1, 0;
      }
      slot := buckets[b][i].slot;
      LaidRemove(buckets, entries, bucketOf, b, i);
      RemoveMaps(entries, fd, slot);
      buckets := buckets[b := Without(buckets[b], i)];
      entries := entries - multiset{Entry(fd, slot)};
      r := 0;
    }
  }
}
