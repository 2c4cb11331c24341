/** lib/direct_cache: a direct-mapped cache in front of an index. */
module DirectCache {
  import opened Options

  datatype Line<V> = Line(key: nat, value: Option<V>)

  /** With two cells or more, the sentinel key of a cell belongs to another cell. */
  lemma SentinelMisses(cell: nat, size: nat)
    requires cell < size && 2 <= size
    ensures (cell + 1) % size != cell
  {
    if cell + 1 == size {
      assert (cell + 1) % size == 0;
    } else {
      assert (cell + 1) % size == cell + 1;
    }
  }

  class Cache<V> {
    const lines: array<Line<V>>

    /** A line either serves its own cell or holds the sentinel key `cell + 1`,
        which no lookup in that cell can ask for. */
    ghost predicate Valid()
      reads this, lines
    {
      && 2 <= lines.Length <= 65536
      && forall i :: 0 <= i < lines.Length ==>
           if lines[i].key % lines.Length == i then lines[i].value.Some? else lines[i].key == i + 1
    }

    /** What a lookup can hit. */
    ghost function Contents(): map<nat, V>
      requires Valid()
      reads this, lines
    {
      map i | 0 <= i < lines.Length && lines[i].key % lines.Length == i :: lines[i].key := lines[i].value.value
    }

    /** The allocation is not cleared: `junk` stands for whatever the value words held. */
    constructor (size: nat, junk: nat -> Option<V>)
      requires 2 <= size <= 65536
      ensures Valid() && fresh(lines) && Contents() == map[] && lines.Length == size
    {
      lines := new Line<V>[size](i => Line(0, junk(i)));
      new;
      for i := 0 to lines.Length
        invariant forall j :: 0 <= j < i ==> lines[j].key == j + 1 && lines[j].key % lines.Length != j
      {
        SentinelMisses(i, lines.Length);
        lines[i] := Line(i + 1, lines[i].value);
      }
    }

    method Get(key: nat) returns (r: Option<V>)
      requires Valid()
      ensures r == if key in Contents() then Some(Contents()[key]) else None
    {
      var cell := key % lines.Length;
      var line := lines[cell];
      if line.key == key {
        return line.value;
      }
      return None;
    }

    method Set(key: nat, value: V)
      requires Valid()
      modifies lines
      ensures Valid()
      ensures Contents() ==
                (map k | k in old(Contents()) && k % lines.Length != key % lines.Length ::
                   old(Contents())[k])[key := value]
    {
      var cell := key % lines.Length;
      lines[cell] := Line(key, Some(value));
    }

    /** Clears the cell of `key` without looking at the key stored there. */
    method Remove(key: nat)
      requires Valid()
      modifies lines
      ensures Valid()
      ensures Contents() == map k | k in old(Contents()) && k % lines.Length != key % lines.Length :: old(Contents())[k]
    {
      var cell := key % lines.Length;
      lines[cell] := Line(cell + 1, None);
    }
  }

  ghost predicate Submap<V>(d: map<nat, V>, m: map<nat, V>) {
    forall k :: k in d ==> k in m && d[k] == m[k]
  }

  /** Clearing the cell of `key` removes the hit for `key`, and perhaps others. */
  lemma CutSubmap<V>(d: map<nat, V>, size: nat, e: map<nat, V>, m: map<nat, V>, key: nat)
    requires Submap(d, m) && size > 0 && e == map k | k in d && k % size != key % size :: d[k]
    ensures Submap(e, m - {key})
  {
  }

  lemma PutSubmap<V>(d: map<nat, V>, size: nat, e: map<nat, V>, m: map<nat, V>, key: nat, item: V)
    requires Submap(d, m) && size > 0 && e == (map k | k in d && k % size != key % size :: d[k])[key := item]
    ensures Submap(e, m[key := item])
  {
  }
}
