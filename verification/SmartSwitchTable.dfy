/** The shared table's own operations, each run to its end by one process. */
module SmartSwitchTable {

  import opened FnvHash
  import opened MacroText
  import opened Options
  import opened SmartSwitch

  class SmartSwitchState {
    var magic: nat
    var epoch: nat
    var count: nat
    const entries: array<Entry>

    ghost predicate Valid()
      reads this, entries
    {
      entries.Length == MAX_ENTRIES && count <= MAX_ENTRIES && Distinct(Contents())
    }

    ghost function Contents(): (s: Shared)
      reads this, entries
    {
      Shared(epoch, count, entries[..])
    }

    ghost function Table(): map<Hash, bool>
      requires Valid()
      reads this, entries
    {
      Published(Contents())
    }

    constructor (memory: array<Entry>)
      requires memory.Length == MAX_ENTRIES
      ensures entries == memory
    {
      entries := memory;
      magic, epoch, count := 0, 0, 0;
    }

    /** Whatever the memory held before. */
    method InitDefaults()
      requires entries.Length == MAX_ENTRIES
      modifies this, entries
      ensures Valid() && Table() == map[] && magic == MAGIC_VALUE
      ensures Contents() == Shared(0, 0, seq(MAX_ENTRIES, _ => Entry(0, 0)))
    {
      magic, epoch, count := MAGIC_VALUE, 0, 0;
      for i := 0 to entries.Length
        invariant magic == MAGIC_VALUE && epoch == 0 && count == 0
        invariant forall k :: 0 <= k < i ==> entries[k] == Entry(0, 0)
      {
        entries[i] := Entry(0, 0);
      }
      assert entries[..] == seq(MAX_ENTRIES, _ => Entry(0, 0));
    }

    /** Where a hash is published, if it is. */
    method Find(hash: Hash) returns (found: bool, i: nat)
      requires Valid()
      ensures found ==> i < count && entries[i].hash == hash
      ensures !found ==> NotAmong(Contents(), count, hash)
    {
      i := 0;
      while i < count && i < MAX_ENTRIES
        invariant i <= count
        invariant NotAmong(Contents(), i, hash)
      {
        if entries[i].hash == hash { return true, i; }
        i := i + 1;
      }
      found := false;
    }

    method SetAppMode(exeName: seq<Wide>, vietnamese: bool, lower: Wide -> Wide)
      requires Valid()
      modifies this, entries
      ensures Valid()
      ensures Table() == WithMode(old(Table()), HashOf(exeName, lower), vietnamese)
      ensures Extends(old(Contents()), Contents())
    {
      hide Modes, HashOf;
      var hash := FnvHash.FnvHash(exeName, lower);
      var found, i := Find(hash);
      ghost var before := Contents();
      PublishedIs(before, hash);
      if found {
        UpdatePublishes(before, vietnamese, i);
        entries[i] := entries[i].(vietnamese := Flag(vietnamese));
        assert entries[..] == before.entries[i := entries[i]];
        epoch := (epoch + 1) % EPOCHS;
        assert Contents().entries[..count] == before.(entries := entries[..]).entries[..count];
        return;
      }
      if count < MAX_ENTRIES {
        entries[count] := entries[count].(hash := hash);
        entries[count] := entries[count].(vietnamese := Flag(vietnamese));
        ghost var filled := Contents();
        assert filled.entries[..count] == before.entries[..count];
        assert Distinct(filled);
        CountPublishes(filled);
        count := count + 1;
        epoch := (epoch + 1) % EPOCHS;
        assert Contents().entries == filled.entries;
      }
    }

    method GetAppMode(exeName: seq<Wide>, lower: Wide -> Wide) returns (mode: Option<bool>)
      requires Valid()
      ensures mode == Lookup(Table(), HashOf(exeName, lower))
    {
      hide Modes, HashOf;
      var hash := FnvHash.FnvHash(exeName, lower);
      var found, i := Find(hash);
      PublishedIs(Contents(), hash);
      mode := if found then Some(entries[i].vietnamese != 0) else None;
    }
  }
}
