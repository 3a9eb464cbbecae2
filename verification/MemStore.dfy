/** The slice-backed key store of spider/memstore/store.go, with its immutable entries. */
module MemStore {
  import opened Basics

  datatype Entry<V> = Entry(key: string, value: V, immutable: bool)

  // ---------------------------------------------------------------- the store as a sequence of entries

  /** The index of the entry for `key`, or the length. */
  function Where<V>(es: seq<Entry<V>>, key: string): (i: nat)
    ensures i <= |es| && (i < |es| ==> es[i].key == key)
    ensures forall k :: 0 <= k < i ==> es[k].key != key
  {
    if es == [] || es[0].key == key then 0 else 1 + Where(es[1..], key)
  }

  ghost predicate UniqueKeys<V>(es: seq<Entry<V>>) {
    forall i, j :: 0 <= i < j < |es| ==> es[i].key != es[j].key
  }

  /** An immutable entry changes only when saved as immutable again. */
  function Updated<V>(e: Entry<V>, value: V, immutable: bool): Entry<V> {
    if immutable || !e.immutable then Entry(e.key, value, immutable) else e
  }

  function Saved<V>(es: seq<Entry<V>>, key: string, value: V, immutable: bool): seq<Entry<V>> {
    var i := Where(es, key);
    if i < |es| then es[i := Updated(es[i], value, immutable)] else es + [Entry(key, value, immutable)]
  }

  function Removed<V>(es: seq<Entry<V>>, key: string): seq<Entry<V>> {
    var i := Where(es, key);
    if i < |es| then es[..i] + es[i + 1..] else es
  }

  function Lookup<V>(es: seq<Entry<V>>, key: string): Option<Entry<V>> {
    var i := Where(es, key);
    if i < |es| then Some(es[i]) else None
  }

  // ---------------------------------------------------------------- runs of operations

  datatype Op<V> = Set(key: string, value: V) | SetImmutable(key: string, value: V) | Remove(key: string) | Reset

  function Apply<V>(es: seq<Entry<V>>, op: Op<V>): seq<Entry<V>> {
    match op
    case Set(key, value) => Saved(es, key, value, false)
    case SetImmutable(key, value) => Saved(es, key, value, true)
    case Remove(key) => Removed(es, key)
    case Reset => []
  }

  function Run<V>(es: seq<Entry<V>>, ops: seq<Op<V>>): seq<Entry<V>> {
    if ops == [] then es else Apply(Run(es, ops[..|ops| - 1]), ops[|ops| - 1])
  }

  lemma RunNothing<V>(es: seq<Entry<V>>)
    ensures Run(es, []) == es
  {}

  lemma WhereIs<V>(es: seq<Entry<V>>, key: string, i: nat)
    requires i <= |es| && (i < |es| ==> es[i].key == key) && forall k :: 0 <= k < i ==> es[k].key != key
    ensures Where(es, key) == i
  {}

  lemma SavedKeepsUniqueKeys<V>(es: seq<Entry<V>>, key: string, value: V, immutable: bool)
    requires UniqueKeys(es)
    ensures UniqueKeys(Saved(es, key, value, immutable))
  {}

  lemma RemovedKeepsUniqueKeys<V>(es: seq<Entry<V>>, key: string)
    requires UniqueKeys(es)
    ensures UniqueKeys(Removed(es, key))
  {
    var i, t := Where(es, key), Removed(es, key);
    if i < |es| {
      assert forall k :: 0 <= k < |t| ==> t[k] == if k < i then es[k] else es[k + 1];
    }
  }

  lemma ApplyKeepsUniqueKeys<V>(es: seq<Entry<V>>, op: Op<V>)
    requires UniqueKeys(es)
    ensures UniqueKeys(Apply(es, op))
  {
    match op {
      case Set(key, value) => SavedKeepsUniqueKeys(es, key, value, false);
      case SetImmutable(key, value) => SavedKeepsUniqueKeys(es, key, value, true);
      case Remove(key) => RemovedKeepsUniqueKeys(es, key);
      case Reset =>
    }
  }

  lemma RunSnoc<V>(es: seq<Entry<V>>, ops: seq<Op<V>>, i: nat)
    requires i < |ops|
    ensures Run(es, ops[..i + 1]) == Apply(Run(es, ops[..i]), ops[i])
  {
    assert ops[..i + 1][..i] == ops[..i];
  }

  /** The store as a map: what an operation does to the entry of every key. */
  function Changed<V>(e: Option<Entry<V>>, op: Op<V>, key: string): Option<Entry<V>> {
    match op
    case Set(k, value) =>
      if k != key then e
      else if e.Some? && e.value.immutable then e
      else Some(Entry(key, value, false))
    case SetImmutable(k, value) => if k == key then Some(Entry(key, value, true)) else e
    case Remove(k) => if k == key then None else e
    case Reset => None
  }

  lemma SavedLookup<V>(es: seq<Entry<V>>, k: string, value: V, immutable: bool, key: string)
    ensures Lookup(Saved(es, k, value, immutable), key) ==
      if k != key then Lookup(es, key)
      else
        match Lookup(es, key)
        case None => Some(Entry(key, value, immutable))
        case Some(e) => Some(Updated(e, value, immutable))
  {
    var i := Where(es, key);
    if k == key || i < |es| { WhereIs(Saved(es, k, value, immutable), key, i); }
    else { WhereIs(Saved(es, k, value, immutable), key, |Saved(es, k, value, immutable)|); }
  }

  lemma RemovedLookup<V>(es: seq<Entry<V>>, k: string, key: string)
    requires UniqueKeys(es)
    ensures Lookup(Removed(es, k), key) == if k == key then None else Lookup(es, key)
  {
    var i, j, t := Where(es, key), Where(es, k), Removed(es, k);
    if j < |es| {
      if k == key { WhereIs(t, key, |t|); } else { WhereIs(t, key, if j < i then i - 1 else i); }
    }
  }

  lemma ApplyRefinesMap<V>(es: seq<Entry<V>>, op: Op<V>, key: string)
    requires UniqueKeys(es)
    ensures Lookup(Apply(es, op), key) == Changed(Lookup(es, key), op, key)
  {
    hide Saved, Removed, UniqueKeys, Where;
    LookupKey(es, key);
    match op {
      case Set(k, value) => SavedLookup(es, k, value, false, key);
      case SetImmutable(k, value) => SavedLookup(es, k, value, true, key);
      case Remove(k) => RemovedLookup(es, k, key);
      case Reset => LookupEmpty<V>(key);
    }
  }

  lemma LookupKey<V>(es: seq<Entry<V>>, key: string)
    ensures Lookup(es, key).Some? ==> Lookup(es, key).value.key == key
  {}

  lemma LookupEmpty<V>(key: string)
    ensures Lookup<V>([], key) == None
  {}

  /** What a run of operations does to the entry of one key, in a map. */
  function ChangedBy<V>(e: Option<Entry<V>>, ops: seq<Op<V>>, key: string): Option<Entry<V>> {
    if ops == [] then e else Changed(ChangedBy(e, ops[..|ops| - 1], key), ops[|ops| - 1], key)
  }

  /** Over every run of operations the store is an ordered map with unique keys. */
  lemma {:induction false} RunRefinesMap<V>(es: seq<Entry<V>>, ops: seq<Op<V>>, key: string)
    requires UniqueKeys(es)
    ensures UniqueKeys(Run(es, ops))
    ensures Lookup(Run(es, ops), key) == ChangedBy(Lookup(es, key), ops, key)
  {
    if ops != [] {
      var init, op := ops[..|ops| - 1], ops[|ops| - 1];
      RunRefinesMap(es, init, key);
      ApplyKeepsUniqueKeys(Run(es, init), op);
      ApplyRefinesMap(Run(es, init), op, key);
    }
  }

  /** The operations that end an entry. */
  predicate Frees<V>(op: Op<V>, key: string) { op.Reset? || (op.Remove? && op.key == key) }

  /**
   * An immutable entry stays immutable until its key is removed or the store is reset, and until then only
   * SetImmutable changes its value.
   */
  lemma {:induction false} ImmutableStays<V>(es: seq<Entry<V>>, ops: seq<Op<V>>, key: string)
    requires UniqueKeys(es) && Lookup(es, key).Some? && Lookup(es, key).value.immutable
    requires forall k :: 0 <= k < |ops| ==> !Frees(ops[k], key)
    ensures Lookup(Run(es, ops), key).Some? && Lookup(Run(es, ops), key).value.immutable
    ensures (forall k :: 0 <= k < |ops| ==> !(ops[k].SetImmutable? && ops[k].key == key)) ==>
      Lookup(Run(es, ops), key) == Lookup(es, key)
  {
    hide Lookup, Apply, UniqueKeys;
    if ops != [] {
      var init, op := ops[..|ops| - 1], ops[|ops| - 1];
      ImmutableStays(es, init, key);
      RunRefinesMap(es, init, key);
      ApplyRefinesMap(Run(es, init), op, key);
      assert !Frees(ops[|ops| - 1], key);
    }
  }

  /**
   * What one operation does to every key: SetImmutable sets the entry and makes it immutable, Set sets it unless it
   * is immutable, Remove and Reset end it, and other keys are left alone.
   */
  lemma OperationLaws<V>(es: seq<Entry<V>>, k: string, value: V, key: string)
    requires UniqueKeys(es)
    ensures Lookup(Apply(es, SetImmutable(k, value)), key) ==
            if k == key then Some(Entry(key, value, true)) else Lookup(es, key)
    ensures Lookup(Apply(es, Set(k, value)), key) ==
            if k == key && !(Lookup(es, key).Some? && Lookup(es, key).value.immutable)
            then Some(Entry(key, value, false)) else Lookup(es, key)
    ensures Lookup(Apply(es, Remove(k)), key) == if k == key then None else Lookup(es, key)
    ensures Lookup(Apply(es, Reset), key) == None
  {
    hide Apply, Lookup, UniqueKeys;
    ApplyRefinesMap(es, SetImmutable(k, value), key);
    ApplyRefinesMap(es, Set(k, value), key);
    ApplyRefinesMap(es, Remove(k), key);
    ApplyRefinesMap(es, Reset, key);
  }

  // ---------------------------------------------------------------- the order of the keys

  function KeysOf<V>(es: seq<Entry<V>>): seq<string> { seq(|es|, i requires 0 <= i < |es| => es[i].key) }

  function WithoutKey(keys: seq<string>, key: string): seq<string> {
    if keys == [] then []
    else (if keys[0] == key then [] else [keys[0]]) + WithoutKey(keys[1..], key)
  }

  /** The keys in the order in which they came; a key that goes leaves the others in theirs. */
  function KeysAfter<V>(keys: seq<string>, ops: seq<Op<V>>): seq<string> {
    if ops == [] then keys
    else
      var before := KeysAfter(keys, ops[..|ops| - 1]);
      match ops[|ops| - 1]
      case Set(k, _) => if k in before then before else before + [k]
      case SetImmutable(k, _) => if k in before then before else before + [k]
      case Remove(k) => WithoutKey(before, k)
      case Reset => []
  }

  lemma {:induction false} WithoutAbsentKey(keys: seq<string>, key: string)
    requires key !in keys
    ensures WithoutKey(keys, key) == keys
  {
    if keys != [] { WithoutAbsentKey(keys[1..], key); }
  }

  lemma {:induction false} WithoutKeyAt(before: seq<string>, key: string, behind: seq<string>)
    requires key !in before && key !in behind
    ensures WithoutKey(before + [key] + behind, key) == before + behind
  {
    if before == [] {
      WithoutAbsentKey(behind, key);
      assert ([] + [key] + behind)[1..] == behind;
    } else {
      WithoutKeyAt(before[1..], key, behind);
      assert (before + [key] + behind)[1..] == before[1..] + [key] + behind;
    }
  }

  lemma SavedKeys<V>(es: seq<Entry<V>>, key: string, value: V, immutable: bool)
    ensures KeysOf(Saved(es, key, value, immutable)) == if key in KeysOf(es) then KeysOf(es) else KeysOf(es) + [key]
  {
    var i := Where(es, key);
    if i < |es| {
      assert KeysOf(es)[i] == key;
    } else {
      assert forall k :: 0 <= k < |es| ==> KeysOf(es)[k] != key;
    }
  }

  lemma RemovedKeys<V>(es: seq<Entry<V>>, key: string)
    requires UniqueKeys(es)
    ensures KeysOf(Removed(es, key)) == WithoutKey(KeysOf(es), key)
  {
    var i, keys := Where(es, key), KeysOf(es);
    if i < |es| {
      RemovedKeysAt(es, key, i);
      WithoutKeyAt(keys[..i], key, keys[i + 1..]);
      assert keys == keys[..i] + [key] + keys[i + 1..];
    } else {
      assert forall k :: 0 <= k < |es| ==> keys[k] == es[k].key;
      WithoutAbsentKey(keys, key);
    }
  }

  lemma RemovedKeysAt<V>(es: seq<Entry<V>>, key: string, i: nat)
    requires UniqueKeys(es) && i < |es| && i == Where(es, key)
    ensures var keys := KeysOf(es);
      && keys[i] == key && key !in keys[..i] && key !in keys[i + 1..]
      && KeysOf(Removed(es, key)) == keys[..i] + keys[i + 1..]
  {
    var keys := KeysOf(es);
    assert forall k :: 0 <= k < |es| && k != i ==> keys[k] == es[k].key != es[i].key;
  }

  /** Over every run the keys stay in the order in which they were first saved. */
  lemma {:induction false} RunKeepsOrder<V>(es: seq<Entry<V>>, ops: seq<Op<V>>)
    requires UniqueKeys(es)
    ensures KeysOf(Run(es, ops)) == KeysAfter(KeysOf(es), ops)
  {
    hide Saved, Removed, KeysOf, UniqueKeys, Where;
    if ops != [] {
      var init, op := ops[..|ops| - 1], ops[|ops| - 1];
      RunKeepsOrder(es, init);
      RunRefinesMap(es, init, "");
      match op {
        case Set(key, value) => SavedKeys(Run(es, init), key, value, false);
        case SetImmutable(key, value) => SavedKeys(Run(es, init), key, value, true);
        case Remove(key) => RemovedKeys(Run(es, init), key);
        case Reset => NoKeys<V>();
      }
    }
  }

  lemma NoKeys<V>()
    ensures KeysOf<V>([]) == []
  {}

  // ---------------------------------------------------------------- the code

  lemma RemovedAt<V>(es: seq<Entry<V>>, i: nat, t: seq<Entry<V>>)
    requires i < |es| && |t| == |es| - 1
    requires (forall k :: 0 <= k < i ==> t[k] == es[k]) && (forall k :: i <= k < |t| ==> t[k] == es[k + 1])
    ensures t == es[..i] + es[i + 1..]
  {}

  class Store<V> {
    /** The slice: its entries are `data[..len]`; the slots behind are stale. */
    var data: array<Entry<V>>
    var len: nat

    ghost predicate Valid()
      reads this, data
    {
      len <= data.Length && UniqueKeys(data[..len])
    }

    function Entries(): seq<Entry<V>>
      requires len <= data.Length
      reads this, data
    {
      data[..len]
    }

    constructor ()
      ensures Valid() && Entries() == [] && fresh(data)
    {
      data := new Entry<V>[0];
      len := 0;
    }

    /** The search with which every operation begins. */
    method Search(key: string) returns (i: nat)
      requires len <= data.Length
      ensures i == Where(Entries(), key)
    {
      i := 0;
      while i < len
        invariant i <= len && forall k :: 0 <= k < i ==> data[k].key != key
      {
        if data[i].key == key {
          break;
        }
        i := i + 1;
      }
      WhereIs(Entries(), key, i);
    }

    /** `append` of one entry: into a stale slot when there is one, otherwise into a larger array. */
    method Append(kv: Entry<V>)
      requires len <= data.Length
      modifies this, data
      ensures len == old(len) + 1 && len <= data.Length && (data == old(data) || fresh(data))
      ensures Entries() == old(Entries()) + [kv]
    {
      if data.Length > len {
        data[len] := kv;
        len := len + 1;
        return;
      }
      var n := len;
      var larger := new Entry<V>[2 * n + 1](_ => kv);
      for i := 0 to n
        invariant n == len == old(len) == data.Length && data == old(data) && data[..] == old(data[..])
        invariant larger[..i] == data[..i] && larger[n] == kv
      {
        larger[i] := data[i];
      }
      assert larger[..n + 1] == old(data[..len]) + [kv];
      data := larger;
      len := n + 1;
    }

    method Save(key: string, value: V, immutable: bool) returns (entry: Entry<V>, inserted: bool)
      requires Valid()
      modifies this, data
      ensures Valid() && (data == old(data) || fresh(data))
      ensures Entries() == Saved(old(Entries()), key, value, immutable)
      ensures Lookup(Entries(), key) == Some(entry) && inserted == (Lookup(old(Entries()), key) == None)
      ensures inserted || immutable || !Lookup(old(Entries()), key).value.immutable ==>
        entry == Entry(key, value, immutable)
      ensures !inserted && !immutable && Lookup(old(Entries()), key).value.immutable ==>
        entry == Lookup(old(Entries()), key).value
    {
      hide UniqueKeys, Where;
      ApplyKeepsUniqueKeys(Entries(), if immutable then SetImmutable(key, value) else Set(key, value));
      SavedLookup(Entries(), key, value, immutable, key);
      LookupKey(Entries(), key);
      ghost var es := Entries();
      var i := Search(key);
      if i < len {
        if immutable && data[i].immutable {
          data[i] := Entry(data[i].key, value, immutable);
        } else if !data[i].immutable {
          data[i] := Entry(data[i].key, value, immutable);
        }
        assert Entries() == es[i := Updated(es[i], value, immutable)];
        return data[i], false;
      }
      entry := Entry(key, value, immutable);
      Append(entry);
      inserted := true;
    }

    method GetEntry(key: string) returns (entry: Option<Entry<V>>)
      requires Valid()
      ensures entry == Lookup(Entries(), key)
      ensures entry.Some? ==> entry.value.key == key && entry.value in Entries()
      ensures entry == None ==> forall i :: 0 <= i < len ==> data[i].key != key
    {
      var i := Search(key);
      return if i < len then Some(data[i]) else None;
    }

    /** `append(args[:i], args[i+1:]...)`: shifts the entries behind `i` down, in place. */
    method ShiftDown(i: nat)
      requires i < len <= data.Length
      modifies data
      ensures forall k :: 0 <= k < i ==> data[k] == old(data[k])
      ensures forall k :: i <= k < len - 1 ==> data[k] == old(data[k + 1])
    {
      for j := i to len - 1
        invariant forall k :: 0 <= k < i ==> data[k] == old(data[k])
        invariant forall k :: i <= k < j ==> data[k] == old(data[k + 1])
        invariant forall k :: j <= k < len ==> data[k] == old(data[k])
      {
        data[j] := data[j + 1];
      }
    }

    /** Removes the entry of `key`; the slot behind the last entry becomes stale. */
    method Remove(key: string) returns (removed: bool)
      requires Valid()
      modifies this`len, data
      ensures Valid() && Entries() == Removed(old(Entries()), key)
      ensures removed == Lookup(old(Entries()), key).Some?
    {
      hide UniqueKeys, Where;
      ghost var es := Entries();
      ApplyKeepsUniqueKeys(es, Op<V>.Remove(key));
      var i := Search(key);
      if i >= len {
        return false;
      }
      ShiftDown(i);
      len := len - 1;
      RemovedAt(es, i, Entries());
      return true;
    }

    method Reset()
      requires Valid()
      modifies this`len
      ensures Valid() && Entries() == []
    {
      len := 0;
    }

    /** Any run of operations on a store does what `Run` does to its entries. */
    method Perform(ops: seq<Op<V>>)
      requires Valid()
      modifies this, data
      ensures Valid() && Entries() == Run(old(Entries()), ops)
    {
      hide UniqueKeys, Where, Saved, Removed, Run;
      RunNothing(Entries());
      assert ops[..0] == [];
      for i := 0 to |ops|
        invariant Valid() && (data == old(data) || fresh(data))
        invariant Entries() == Run(old(Entries()), ops[..i])
      {
        RunSnoc(old(Entries()), ops, i);
        match ops[i] {
          case Set(key, value) =>
            var _, _ := Save(key, value, false);
          case SetImmutable(key, value) =>
            var _, _ := Save(key, value, true);
          case Remove(key) =>
            var _ := Remove(key);
          case Reset =>
            Reset();
        }
      }
      assert ops[..|ops|] == ops;
    }
  }
}
