/** Context items of spider/item.go: values routed to children on cancel. */
module ContextItems {
  import opened Basics

  type Value = int

  /** An item outside any context. */
  datatype Raw = Raw(id: string, payload: int)

  /** `Nil` is the nil that a combiner may return. */
  datatype Item = Nil | Plain(raw: Raw) | InContext(item: ContextItem)

  /** What an item answers when it is asked for its id; `None` when it has none to give. */
  function IdOf(item: Item): Option<string>
    reads if item.InContext? then {item.item} else {}
  {
    match item
    case Nil => None
    case Plain(raw) => Some(raw.id)
    case InContext(c) => c.id
  }

  /** One `context.WithValue` layer; the value may be nil. */
  datatype Binding = Binding(key: string, value: Option<Value>)

  type Values = map<string, map<string, Value>>

  /** What `Context.Value(key)` finds in the layers, innermost last: the latest layer for the key, if any. */
  function Find(layers: seq<Binding>, key: string): Option<Binding> {
    if layers == [] then None
    else if layers[|layers| - 1].key == key then Some(layers[|layers| - 1])
    else Find(layers[..|layers| - 1], key)
  }

  lemma FindSnoc(layers: seq<Binding>, b: Binding, key: string)
    ensures Find(layers + [b], key) == if b.key == key then Some(b) else Find(layers, key)
  {
    assert (layers + [b])[..|layers|] == layers;
  }

  // ---------------------------------------------------------------- recording values for children

  datatype Setting = Setting(key: string, id: string, value: Value)

  /** `withChildCtxValue`, on the stored maps. */
  function Record(values: Values, s: Setting): Values {
    values[s.key := (if s.key in values then values[s.key] else map[])[s.id := s.value]]
  }

  function RecordAll(settings: seq<Setting>): Values {
    if settings == [] then map[]
    else Record(RecordAll(settings[..|settings| - 1]), settings[|settings| - 1])
  }

  /** The last value set for a child's id under a key. */
  function LastSet(settings: seq<Setting>, key: string, id: string): Option<Value> {
    if settings == [] then None
    else
      var s := settings[|settings| - 1];
      if s.key == key && s.id == id then Some(s.value) else LastSet(settings[..|settings| - 1], key, id)
  }

  function ValueFor(values: Values, key: string, id: string): Option<Value> {
    if key in values && id in values[key] then Some(values[key][id]) else None
  }

  ghost predicate SetUnder(settings: seq<Setting>, key: string) {
    exists k :: 0 <= k < |settings| && settings[k].key == key
  }

  lemma SetUnderSnoc(settings: seq<Setting>, s: Setting, key: string)
    ensures SetUnder(settings + [s], key) <==> SetUnder(settings, key) || s.key == key
  {
    var all := settings + [s];
    assert all[|settings|] == s;
    if SetUnder(settings, key) {
      var k :| 0 <= k < |settings| && settings[k].key == key;
      assert all[k].key == key;
    }
  }

  lemma RecordStores(values: Values, s: Setting, key: string, id: string)
    ensures ValueFor(Record(values, s), key, id) ==
            if s.key == key && s.id == id then Some(s.value) else ValueFor(values, key, id)
    ensures key in Record(values, s) <==> key in values || s.key == key
  {}

  /** The last value set is that of the last setting for that key and id, at `k`; there is none when `k` is -1. */
  lemma {:induction false} LastSetIs(settings: seq<Setting>, key: string, id: string) returns (k: int)
    ensures -1 <= k < |settings|
    ensures LastSet(settings, key, id) == if k < 0 then None else Some(settings[k].value)
    ensures k >= 0 ==> settings[k].key == key && settings[k].id == id
    ensures forall j :: k < j < |settings| ==> settings[j].key != key || settings[j].id != id
  {
    k := |settings| - 1;
    if k >= 0 && (settings[k].key != key || settings[k].id != id) {
      k := LastSetIs(settings[..k], key, id);
    }
  }

  /** The stored maps hold, for every key and id, the last value set; a key is stored when anything was set under it. */
  lemma {:induction false} RecordKeepsLast(settings: seq<Setting>, key: string, id: string)
    ensures ValueFor(RecordAll(settings), key, id) == LastSet(settings, key, id)
    ensures key in RecordAll(settings) <==> SetUnder(settings, key)
  {
    hide SetUnder, Record, ValueFor;
    if settings != [] {
      var init, last := settings[..|settings| - 1], settings[|settings| - 1];
      RecordKeepsLast(init, key, id);
      assert settings == init + [last];
      SetUnderSnoc(init, last, key);
      RecordStores(RecordAll(init), last, key, id);
    } else {
      NothingSet(key);
    }
  }

  lemma NothingSet(key: string)
    ensures !SetUnder([], key) && forall id :: ValueFor(map[], key, id) == None
  {}

  /** A child was given, under every stored key, the value stored for its id; other keys read as before. */
  ghost predicate Routed(layers: seq<Binding>, before: seq<Binding>, values: Values, id: string) {
    && (forall key :: key in values ==> Find(layers, key) == Some(Binding(key, ValueFor(values, key, id))))
    && (forall key :: key !in values ==> Find(layers, key) == Find(before, key))
  }

  /** A child was given, under every key that was set, the last value set for its id; other keys read as before. */
  ghost predicate GivesLast(layers: seq<Binding>, before: seq<Binding>, settings: seq<Setting>, id: string) {
    && (forall key :: SetUnder(settings, key) ==> Find(layers, key) == Some(Binding(key, LastSet(settings, key, id))))
    && (forall key :: !SetUnder(settings, key) ==> Find(layers, key) == Find(before, key))
  }

  /** Routing what is stored gives each child the last values set for it. */
  lemma RoutedGivesLast(layers: seq<Binding>, before: seq<Binding>, settings: seq<Setting>, id: string)
    requires Routed(layers, before, RecordAll(settings), id)
    ensures GivesLast(layers, before, settings, id)
  {
    hide RecordAll, LastSet, ValueFor, SetUnder, Find;
    forall key { RecordKeepsLast(settings, key, id); }
  }

  lemma GivesLastAgain(
      after: seq<Binding>, mid: seq<Binding>, before: seq<Binding>, settings: seq<Setting>, id: string)
    requires GivesLast(mid, before, settings, id) && GivesLast(after, mid, settings, id)
    ensures GivesLast(after, before, settings, id)
  {
    hide Find, SetUnder, LastSet;
  }

  class ContextItem {
    /** The embedded item, and its id; an item that embeds itself never gets to one. */
    var inner: Item
    var id: Option<string>
    const deadline: Option<int>
    const hasCancel: bool
    /** `Err() != nil`: cancelled or past the deadline. */
    var done: bool
    var layers: seq<Binding>
    var children: seq<ContextItem>
    var values: Values
    /** The values set for children so far. */
    ghost var settings: seq<Setting>
    /** The layers at the moment this item was cancelled. */
    ghost var seen: Option<seq<Binding>>

    ghost predicate Valid()
      reads this
    {
      && values == RecordAll(settings)
      && (inner.Plain? ==> id == Some(inner.raw.id))
      && (inner.Nil? ==> id == None)
    }

    constructor (inner: Item, deadline: Option<int>, hasCancel: bool)
      ensures Valid() && settings == []
      ensures inner.InContext? ==> this.id == inner.item.id
      ensures this.inner == inner && this.deadline == deadline && this.hasCancel == hasCancel
      ensures !done && layers == [] && children == [] && values == map[] && seen == None
    {
      this.inner, this.id, this.deadline, this.hasCancel := inner, IdOf(inner), deadline, hasCancel;
      done, layers, children, values, settings, seen := false, [], [], map[], [], None;
    }

    /** Makes `item` the embedded one. */
    method Embed(item: Item)
      requires Valid()
      modifies this`inner, this`id
      ensures Valid() && inner == item
      ensures item.InContext? ==> id == old(item.item.id)
    {
      id := IdOf(item);
      inner := item;
    }

    /** A context item becomes a child and gives its embedded item; any other item gives the parent itself. */
    method AddChild(child: Item) returns (item: Item)
      modifies this`children
      ensures child.InContext? ==> children == old(children) + [child.item] && item == child.item.inner
      ensures !child.InContext? ==> children == old(children) && item == InContext(this)
    {
      match child {
        case InContext(c) =>
          children := children + [c];
          return c.inner;
        case _ =>
          return InContext(this);
      }
    }

    function Id(): string
      reads this`id
    {
      if id.Some? then id.value else ""
    }

    /** Children are asked for their ids only when something is stored for them. */
    ghost predicate CanAsk(child: ContextItem)
      reads this`values, child`id
    {
      child != this && (values != map[] ==> child.id.Some?)
    }

    method WithValue(key: string, value: Option<Value>)
      modifies this`layers
      ensures layers == old(layers) + [Binding(key, value)]
    {
      layers := layers + [Binding(key, value)];
    }

    method WithChildCtxValue(key: string, id: string, value: Value)
      requires Valid()
      modifies this`values, this`settings
      ensures Valid() && settings == old(settings) + [Setting(key, id, value)]
      ensures values == Record(old(values), Setting(key, id, value))
    {
      assert (settings + [Setting(key, id, value)])[..|settings|] == settings;
      settings := settings + [Setting(key, id, value)];
      if key in values {
        values := values[key := values[key][id := value]];
      } else {
        values := values[key := map[]];
        values := values[key := values[key][id := value]];
      }
    }

    /** The cancel function of the context. */
    method CancelContext()
      modifies this`done, this`seen
      ensures done && seen == if old(done) then old(seen) else Some(layers)
    {
      if !done {
        seen := Some(layers);
        done := true;
      }
    }

    /** Attaches every stored key to `child`, in whatever order the map is iterated. */
    method Attach(child: ContextItem)
      requires CanAsk(child)
      modifies child`layers
      ensures Routed(child.layers, old(child.layers), values, child.Id())
    {
      var keys := values.Keys;
      while keys != {}
        invariant keys <= values.Keys
        invariant forall key :: key in values && key !in keys ==>
          Find(child.layers, key) == Some(Binding(key, ValueFor(values, key, child.Id())))
        invariant forall key :: key !in values || key in keys ==>
          Find(child.layers, key) == Find(old(child.layers), key)
        decreases keys
      {
        var key :| key in keys;
        var id := child.id.value;
        var value := if id in values[key] then Some(values[key][id]) else None;
        forall k { FindSnoc(child.layers, Binding(key, value), k); }
        child.WithValue(key, value);
        keys := keys - {key};
      }
    }

    /** What a live cancel does to one child. */
    method Release(child: ContextItem)
      requires CanAsk(child)
      modifies child`layers, child`done, child`seen
      ensures Routed(child.layers, old(child.layers), values, child.Id())
      ensures child.done == (old(child.done) || child.hasCancel)
      ensures child.seen == if !old(child.done) && child.hasCancel then Some(child.layers) else old(child.seen)
    {
      Attach(child);
      if child.hasCancel {
        child.CancelContext();
      }
    }

    /** A child as a live cancel leaves it: it has the last values set for it, and had them when it was cancelled. */
    twostate predicate Released(c: ContextItem)
      reads this, c
    {
      && GivesLast(c.layers, old(c.layers), settings, c.Id())
      && c.done == (old(c.done) || c.hasCancel)
      && (!old(c.done) && c.hasCancel ==> c.seen.Some? && GivesLast(c.seen.value, old(c.layers), settings, c.Id()))
    }

    /**
     * Cancels a packed item. Live, it gives every child, under every key, the last value set for its id, before
     * cancelling it; cancelled or expired already, it changes nothing.
     */
    method Cancel()
      requires Valid() && forall c :: c in children ==> CanAsk(c)
      modifies this`done, this`seen, children`layers, children`done, children`seen
      ensures done == (old(done) || hasCancel)
      ensures old(done) ==> seen == old(seen) && forall c :: c in children ==>
        c.layers == old(c.layers) && c.done == old(c.done) && c.seen == old(c.seen)
      ensures !old(done) ==> forall c :: c in children ==> Released(c)
      ensures !old(done) ==> forall c :: c in children && c.Valid() && c.inner.Plain? ==>
        GivesLast(c.layers, old(c.layers), settings, c.inner.raw.id)
    {
      hide Routed, GivesLast, RecordAll;
      if done {
        return;
      }
      if hasCancel {
        CancelContext();
      }
      for i := 0 to |children|
        invariant done == hasCancel
        invariant forall c :: c in children && c !in children[..i] ==>
          c.layers == old(c.layers) && c.done == old(c.done) && c.seen == old(c.seen)
        invariant forall c :: c in children[..i] ==> Released(c)
      {
        var child := children[i];
        ghost var mid, id := child.layers, child.Id();
        Release(child);
        RoutedGivesLast(child.layers, mid, settings, id);
        if child in children[..i] {
          GivesLastAgain(child.layers, mid, old(child.layers), settings, id);
        }
      }
    }
  }
}

/** The batcher of spider/item.go: one reused backing array, and combiners that get a copy or the array itself. */
module ItemPacking {
  import opened Basics
  import opened ContextItems

  /** One call of the combiner: the pending items at that time, the slice it was given, and what was made of it. */
  datatype Batch = Batch(items: seq<Item>, arg: array<Item>, copied: bool, packed: ContextItem?, result: Item)

  /** What `addChild` makes of an item: a context item gives its own item, any other the packed parent itself. */
  function Unwrapped(item: Item, packed: ContextItem): Item
    reads if item.InContext? then {item.item} else {}
  {
    match item
    case InContext(c) => c.inner
    case _ => InContext(packed)
  }

  function ChildrenOf(items: seq<Item>): seq<ContextItem> {
    if items == [] then []
    else
      var init := ChildrenOf(items[..|items| - 1]);
      match items[|items| - 1]
      case InContext(c) => init + [c]
      case _ => init
  }

  function Concat(batches: seq<Batch>): seq<Item> {
    if batches == [] then [] else Concat(batches[..|batches| - 1]) + batches[|batches| - 1].items
  }

  /** What the batches send: every result that is not nil. */
  function Sent(batches: seq<Batch>): seq<Item> {
    if batches == [] then []
    else
      var result := batches[|batches| - 1].result;
      Sent(batches[..|batches| - 1]) + (if result.Nil? then [] else [result])
  }

  lemma BatchesSnoc(batches: seq<Batch>, b: Batch)
    ensures Concat(batches + [b]) == Concat(batches) + b.items
    ensures Sent(batches + [b]) == Sent(batches) + (if b.result.Nil? then [] else [b.result])
  {
    assert (batches + [b])[..|batches|] == batches;
  }

  lemma ChildrenSnoc(items: seq<Item>, item: Item)
    ensures ChildrenOf(items + [item]) == ChildrenOf(items) + (if item.InContext? then [item.item] else [])
  {
    assert (items + [item])[..|items|] == items;
  }

  lemma {:induction false} ChildrenAre(items: seq<Item>, c: ContextItem)
    ensures c in ChildrenOf(items) <==> InContext(c) in items
  {
    if items != [] {
      var init, last := items[..|items| - 1], items[|items| - 1];
      ChildrenAre(init, c);
      assert items == init + [last];
    }
  }

  /** A packed item as it is sent: alive, cancellable, with nothing set for its children. */
  ghost predicate IsNew(packed: ContextItem)
    reads packed
  {
    packed.Valid() && packed.settings == [] && !packed.done && packed.hasCancel && packed !in packed.children
  }

  /**
   * The combiner's call for the pending `items`. A batch that begins with a context item with a deadline is
   * copied, item by item unwrapped, into an array of its own, and its context items become the children of a
   * packed item that has the first item's deadline. Any other batch is the buffer itself.
   */
  ghost predicate IsCallFor(b: Batch, items: seq<Item>, buf: array<Item>)
    requires items != []
    reads b.arg, b.packed, set k | 0 <= k < |items| && items[k].InContext? :: items[k].item
  {
    && b.items == items
    && (b.copied <==> items[0].InContext? && items[0].item.deadline.Some?)
    && (!b.copied ==> b.arg == buf && |items| <= b.arg.Length && b.arg[..|items|] == items)
    && (b.copied ==>
          && b.arg.Length == |items| && b.packed != null && b.result == InContext(b.packed)
          && b.packed.children == ChildrenOf(items) && b.packed.deadline == items[0].item.deadline
          && (forall k :: 0 <= k < |items| ==> b.arg[k] == Unwrapped(items[k], b.packed))
          && (forall k :: 0 <= k < |items| && items[k].InContext? ==> items[k].item.inner != InContext(b.packed)))
  }

  class Packer {
    const bulkSize: int
    /** The backing array; the pending items are `buf[..len]`. */
    var buf: array<Item>
    var len: nat
    /** What was sent to the target channel. */
    var target: seq<Item>
    ghost var received: seq<Item>
    ghost var batches: seq<Batch>
    /** The slices given to combiners that were copies, with their contents when given. */
    ghost var copies: map<array<Item>, seq<Item>>

    /** The bookkeeping that holds between any two statements of the loop. */
    ghost predicate Consistent()
      reads this, buf, copies.Keys
    {
      && len <= buf.Length
      && received == Concat(batches) + buf[..len]
      && target == Sent(batches)
      && (forall k :: 0 <= k < |batches| ==> BatchSizeOk(|batches[k].items|))
      && (forall k :: 0 <= k < |batches| && batches[k].copied ==> batches[k].arg in copies)
      && buf !in copies
      && (forall a :: a in copies ==> a[..] == copies[a])
    }

    /** Between two events the pending items are fewer than a batch. */
    ghost predicate Valid()
      reads this, buf, copies.Keys
    {
      Consistent() && (len == 0 || len < bulkSize)
    }

    predicate BatchSizeOk(n: nat) { 1 <= n && (n == 1 || n <= bulkSize) }

    constructor (bulkSize: int)
      ensures Valid() && this.bulkSize == bulkSize && fresh(buf)
      ensures received == [] && batches == [] && copies == map[] && target == []
    {
      this.bulkSize := bulkSize;
      buf := new Item[0];
      len, received, batches, copies, target := 0, [], [], map[], [];
    }

    /** `items = append(items, item)`: in place when there is room, otherwise into a larger array. */
    method Append(item: Item)
      requires len <= buf.Length
      modifies this`buf, this`len, buf
      ensures len == old(len) + 1 && len <= buf.Length && buf[..len] == old(buf[..len]) + [item]
      ensures if old(len) < old(buf.Length) then buf == old(buf) else fresh(buf)
      ensures buf == old(buf) ==> buf[len..] == old(buf[len + 1..])
    {
      if len == buf.Length {
        var larger := new Item[2 * len + 1](_ => item);
        for i := 0 to len
          invariant len == old(len) == buf.Length && buf == old(buf) && buf[..] == old(buf[..])
          invariant larger[..i] == buf[..i]
        {
          larger[i] := buf[i];
        }
        assert larger[..len] == old(buf[..len]);
        buf := larger;
      }
      buf[len] := item;
      len := len + 1;
    }

    /** `parseItems` for a batch that begins with a context item with a deadline: the combiner gets a copy. */
    method CopyChildren(packed: ContextItem) returns (rawItems: array<Item>)
      requires len <= buf.Length && packed.children == []
      requires forall k :: 0 <= k < len && buf[k].InContext? ==> buf[k].item != packed
      modifies packed`children
      ensures fresh(rawItems) && rawItems.Length == len
      ensures forall k :: 0 <= k < len ==> rawItems[k] == Unwrapped(buf[k], packed)
      ensures packed.children == ChildrenOf(buf[..len])
    {
      rawItems := new Item[len](_ => InContext(packed));
      assert buf[..0] == [];
      for i := 0 to len
        invariant forall k :: 0 <= k < i ==> rawItems[k] == Unwrapped(buf[k], packed)
        invariant packed.children == ChildrenOf(buf[..i])
      {
        ChildrenSnoc(buf[..i], buf[i]);
        assert buf[..i + 1] == buf[..i] + [buf[i]];
        rawItems[i] := packed.AddChild(buf[i]);
      }
    }

    /** The combiner's call for a batch that is copied; the combiner returns whatever it likes. */
    method CombineCopied() returns (b: Batch)
      requires 0 < len <= buf.Length && buf[0].InContext? && buf[0].item.deadline.Some?
      ensures IsCallFor(b, buf[..len], buf) && b.copied
      ensures fresh(b.arg) && b.packed != null && fresh(b.packed) && IsNew(b.packed)
    {
      hide ChildrenOf, Unwrapped;
      var packed := new ContextItem(Nil, buf[0].item.deadline, true);
      var rawItems := CopyChildren(packed);
      forall c { ChildrenAre(buf[..len], c); }
      var combined: Item := *;
      packed.Embed(combined);
      b := Batch(buf[..len], rawItems, true, packed, InContext(packed));
    }

    method FlushCopied()
      requires Consistent() && len > 0 && BatchSizeOk(len)
      requires buf[0].InContext? && buf[0].item.deadline.Some?
      modifies this`len, this`batches, this`copies, this`target
      ensures Consistent() && len == 0
      ensures |batches| == |old(batches)| + 1 && batches[..|old(batches)|] == old(batches)
      ensures var b := batches[|batches| - 1];
        && IsCallFor(b, old(buf[..len]), buf) && fresh(b.arg) && b.packed != null && fresh(b.packed)
        && IsNew(b.packed) && target == old(target) + [InContext(b.packed)]
      ensures forall a :: a in old(copies) ==> a in copies && copies[a] == old(copies[a])
    {
      hide Concat, Sent, ChildrenOf, Unwrapped;
      var b := CombineCopied();
      BatchesSnoc(batches, b);
      copies := copies[b.arg := b.arg[..]];
      batches := batches + [b];
      target := target + [InContext(b.packed)];
      len := 0;
    }

    method FlushPlain()
      requires Consistent() && len > 0 && BatchSizeOk(len)
      requires !(buf[0].InContext? && buf[0].item.deadline.Some?)
      modifies this`len, this`batches, this`target
      ensures Consistent() && len == 0
      ensures |batches| == |old(batches)| + 1 && batches[..|old(batches)|] == old(batches)
      ensures IsCallFor(batches[|batches| - 1], old(buf[..len]), buf)
      ensures var result := batches[|batches| - 1].result;
        target == old(target) + (if result == Nil then [] else [result])
    {
      hide Concat, Sent;
      var combined: Item := *;
      ghost var b := Batch(buf[..len], buf, false, null, combined);
      BatchesSnoc(batches, b);
      batches := batches + [b];
      if combined != Nil {
        target := target + [combined];
      }
      len := 0;
    }

    /** Combines the pending items, sends what the combiner returns, and empties the buffer, keeping its array. */
    method Flush()
      requires Consistent() && len > 0 && BatchSizeOk(len)
      modifies this`len, this`batches, this`copies, this`target
      ensures Consistent() && len == 0
      ensures |batches| == |old(batches)| + 1 && batches[..|old(batches)|] == old(batches)
      ensures IsCallFor(batches[|batches| - 1], old(buf[..len]), buf)
      ensures forall a :: a in old(copies) ==> a in copies && copies[a] == old(copies[a])
    {
      hide Concat, Sent, ChildrenOf, IsCallFor, Unwrapped;
      if buf[0].InContext? && buf[0].item.deadline.Some? {
        FlushCopied();
      } else {
        FlushPlain();
      }
    }

    /** `case item := <-ch`. */
    method Arrive(item: Item)
      requires Valid()
      modifies this, buf
      ensures Valid() && received == old(received) + [item]
      ensures old(len) < buf.Length && if old(len) < old(buf.Length) then buf == old(buf) else fresh(buf)
      ensures buf[..old(len) + 1] == old(buf[..len]) + [item]
      ensures buf == old(buf) ==> buf[old(len) + 1..] == old(buf[len + 1..])
      ensures if old(len) + 1 < bulkSize then batches == old(batches)
              else |batches| == |old(batches)| + 1 && batches[..|old(batches)|] == old(batches) && len == 0
      ensures old(len) + 1 >= bulkSize ==> IsCallFor(batches[|batches| - 1], old(buf[..len]) + [item], buf)
      ensures forall a :: a in old(copies) ==> a in copies && copies[a] == old(copies[a])
    {
      hide Concat, Sent, ChildrenOf, IsCallFor, Unwrapped;
      Append(item);
      received := received + [item];
      assert Consistent();
      if len >= bulkSize {
        Flush();
      }
    }

    /** `case <-ticker.C`. */
    method Tick()
      requires Valid()
      modifies this`len, this`batches, this`copies, this`target
      ensures Valid() && len == 0
      ensures if old(len) == 0 then batches == old(batches)
              else |batches| == |old(batches)| + 1 && batches[..|old(batches)|] == old(batches)
      ensures old(len) > 0 ==> IsCallFor(batches[|batches| - 1], old(buf[..len]), buf)
      ensures forall a :: a in old(copies) ==> a in copies && copies[a] == old(copies[a])
    {
      hide Concat, Sent, ChildrenOf, IsCallFor, Unwrapped;
      if len > 0 {
        Flush();
      }
    }
  }

  datatype Event = Arrival(item: Item) | TickerFired

  function Arrivals(events: seq<Event>): seq<Item> {
    if events == [] then []
    else Arrivals(events[..|events| - 1]) + (if events[|events| - 1].Arrival? then [events[|events| - 1].item] else [])
  }

  /** A batch that was copied still has the argument, the children and the result it was made with. */
  ghost predicate Intact(b: Batch)
    reads b.arg, b.packed, set k | 0 <= k < |b.items| && b.items[k].InContext? :: b.items[k].item
  {
    b.items != [] && IsCallFor(b, b.items, b.arg)
  }

  lemma CallIsIntact(b: Batch, items: seq<Item>, buf: array<Item>)
    requires items != [] && IsCallFor(b, items, buf)
    ensures b.items == items && (b.copied ==> Intact(b))
  {}

  /** One round of the select. */
  method Handle(p: Packer, event: Event)
    requires p.Valid() && forall k :: 0 <= k < |p.batches| && p.batches[k].copied ==> Intact(p.batches[k])
    modifies p, p.buf
    ensures p.Valid() && (p.buf == old(p.buf) || fresh(p.buf))
    ensures forall k :: 0 <= k < |p.batches| && p.batches[k].copied ==> Intact(p.batches[k])
    ensures p.received == old(p.received) + (if event.Arrival? then [event.item] else [])
  {
    hide Concat, Sent, IsCallFor, Intact;
    ghost var pending, made := p.buf[..p.len], p.batches;
    match event {
      case Arrival(item) =>
        pending := pending + [item];
        p.Arrive(item);
      case TickerFired =>
        p.Tick();
    }
    if |p.batches| > |made| {
      CallIsIntact(p.batches[|made|], pending, p.buf);
    }
    forall k | 0 <= k < |p.batches| && p.batches[k].copied ensures Intact(p.batches[k]) {
      assert k < |made| ==> p.batches[k] == made[k];
    }
  }

  /**
   * In every interleaving of arrivals and ticks: the batches and the pending items, put together, are what was
   * received; each batch has 1 to max(1, bulkSize) items; what was sent are the batches' results; and every copy
   * given to a combiner still holds its items, unwrapped, however often the buffer was overwritten since.
   */
  method Pack(bulkSize: int, events: seq<Event>) returns (p: Packer)
    ensures fresh(p) && p.Valid() && p.bulkSize == bulkSize
    ensures Arrivals(events) == Concat(p.batches) + p.buf[..p.len]
    ensures forall k :: 0 <= k < |p.batches| ==> p.BatchSizeOk(|p.batches[k].items|)
    ensures p.target == Sent(p.batches)
    ensures forall k :: 0 <= k < |p.batches| && p.batches[k].copied ==> Intact(p.batches[k])
  {
    hide Concat, Sent, IsCallFor, Intact;
    p := new Packer(bulkSize);
    for i := 0 to |events|
      invariant fresh(p) && fresh(p.buf) && p.Valid() && p.bulkSize == bulkSize
      invariant p.received == Arrivals(events[..i])
      invariant forall k :: 0 <= k < |p.batches| && p.batches[k].copied ==> Intact(p.batches[k])
    {
      assert events[..i + 1][..i] == events[..i];
      Handle(p, events[i]);
    }
    assert events[..|events|] == events;
  }

  /** The slice that the combiner was given, as it is now. */
  ghost function Contents(b: Batch): seq<Item>
    requires |b.items| <= b.arg.Length
    reads b.arg
  {
    b.arg[..|b.items|]
  }

  function ContentsAfter(contents: seq<Item>, copied: bool, next: Item): seq<Item>
    requires contents != []
  {
    if copied then contents else contents[0 := next]
  }

  /**
   * What the next arrival does to a batch: one that was copied stays as it is, and one that was not loses its
   * first item to the new one, being the buffer itself.
   */
  method ArriveBehind(p: Packer, ghost b: Batch, item: Item)
    requires p.Valid() && p.len == 0 && b in p.batches && b.items != [] && IsCallFor(b, b.items, p.buf)
    modifies p, p.buf
    ensures p.Valid() && old(p.batches) <= p.batches
    ensures b.copied ==> Intact(b)
    ensures !b.copied ==> b.arg == p.buf && b.arg[0] == item
    ensures Contents(b) == ContentsAfter(old(Contents(b)), b.copied, item)
  {
    hide Concat, Sent;
    p.Arrive(item);
    assert !b.copied ==> b.arg[..1] == [item];
  }

  /** A batch keeps its contents whatever arrives next exactly when it begins with a context item with a deadline. */
  lemma OnlyCopiesLast(b: Batch, buf: array<Item>)
    requires b.items != [] && IsCallFor(b, b.items, buf)
    ensures (forall next :: ContentsAfter(Contents(b), b.copied, next) == Contents(b))
      <==> b.items[0].InContext? && b.items[0].item.deadline.Some?
  {
    if !b.copied {
      var other := if b.items[0] == Nil then Plain(Raw("", 0)) else Nil;
      assert ContentsAfter(Contents(b), b.copied, other)[0] != Contents(b)[0];
    }
  }

  lemma CallIsPlain(b: Batch, x: Item, buf: array<Item>)
    requires IsCallFor(b, [x], buf) && !(x.InContext? && x.item.deadline.Some?)
    ensures b.items == [x] && !b.copied && b.arg.Length > 0
  {}

  /** An item that is flushed alone, without being copied, is gone from the combiner's slice with the next one. */
  method PlainBatchIsOverwritten(bulkSize: int, x: Item, y: Item) returns (p: Packer)
    requires !(x.InContext? && x.item.deadline.Some?)
    ensures |p.batches| > 0 && p.batches[0].items == [x] && p.batches[0].arg.Length > 0 && p.batches[0].arg[0] == y
  {
    hide Concat, Sent, IsCallFor, Intact;
    p := new Packer(bulkSize);
    p.Arrive(x);
    if p.len > 0 {
      p.Tick();
    }
    ghost var b := p.batches[0];
    CallIsPlain(b, x, p.buf);
    ArriveBehind(p, b, y);
  }

  // ---------------------------------------------------------------- the deadline of a packed item

  /** A packed item expires no later than any child exactly when the first item of its batch does. */
  lemma PackedExpiresWithTheFirst(b: Batch, buf: array<Item>)
    requires b.items != [] && IsCallFor(b, b.items, buf) && b.copied
    ensures b.packed.deadline.Some?
    ensures (forall c :: c in b.packed.children && c.deadline.Some? ==> b.packed.deadline.value <= c.deadline.value)
      <==> (forall k :: 0 < k < |b.items| && b.items[k].InContext? && b.items[k].item.deadline.Some? ==>
              b.items[0].item.deadline.value <= b.items[k].item.deadline.value)
  {
    hide ChildrenOf;
    forall c { ChildrenAre(b.items, c); }
  }

  lemma PairIsPacked(b: Batch, c: ContextItem, y: Item, buf: array<Item>)
    requires c.deadline.Some? && IsCallFor(b, [InContext(c)] + [y], buf)
    ensures b.copied && b.packed != null && b.packed.deadline == c.deadline && b.arg.Length == 2
    ensures b.packed.children == [c] + (if y.InContext? then [y.item] else [])
    ensures b.arg[1] == Unwrapped(y, b.packed)
  {
    ChildrenSnoc([], InContext(c));
    ChildrenSnoc([InContext(c)], y);
    assert [] + [InContext(c)] == [InContext(c)] && [] + [c] == [c];
  }

  /** Packs two items. */
  method PackTwo(x: Item, y: Item) returns (p: Packer)
    ensures |p.batches| == 1 && IsCallFor(p.batches[0], [x] + [y], p.buf)
  {
    hide Concat, Sent, IsCallFor;
    p := new Packer(2);
    p.Arrive(x);
    assert p.buf[..p.len] == [x];
    p.Arrive(y);
  }

  /** Two items, of which the second one expires earlier: the packed item outlives its second child. */
  method EarliestIsMissed(late: int, early: int) returns (p: Packer)
    requires early < late
    ensures |p.batches| == 1 && p.batches[0].copied && p.batches[0].packed != null
    ensures var packed := p.batches[0].packed;
      packed.deadline == Some(late) && |packed.children| == 2 && packed.children[1].deadline == Some(early)
  {
    hide IsCallFor;
    var first := new ContextItem(Nil, Some(late), true);
    var second := new ContextItem(Nil, Some(early), true);
    p := PackTwo(InContext(first), InContext(second));
    PairIsPacked(p.batches[0], first, InContext(second), p.buf);
  }

  // ---------------------------------------------------------------- what the combiner is given

  /**
   * A combiner is given every context item's own item in its place; and it is given items only, never the packed
   * parent, exactly when the batch is of context items.
   */
  lemma ParentStandsForPlainItems(b: Batch, buf: array<Item>)
    requires b.items != [] && IsCallFor(b, b.items, buf) && b.copied
    ensures forall k :: 0 <= k < |b.items| ==>
      b.arg[k] == if b.items[k].InContext? then b.items[k].item.inner else InContext(b.packed)
    ensures (forall k :: 0 <= k < |b.items| ==> b.arg[k] != InContext(b.packed))
      <==> (forall k :: 0 <= k < |b.items| ==> b.items[k].InContext?)
  {
    if k :| 0 <= k < |b.items| && !b.items[k].InContext? {
      assert b.arg[k] == InContext(b.packed);
    }
  }

  /** A batch whose second item is plain: the combiner finds the packed parent there, and the item nowhere. */
  method MixedBatch(deadline: int, raw: Raw) returns (p: Packer)
    ensures |p.batches| == 1 && p.batches[0].copied && p.batches[0].packed != null
    ensures var b := p.batches[0];
      && |b.items| == 2 && b.items[1] == Plain(raw) && b.arg.Length == 2 && b.arg[1] == InContext(b.packed)
      && Plain(raw) !in b.arg[..] && |b.packed.children| == 1
  {
    hide IsCallFor;
    var first := new ContextItem(Nil, Some(deadline), true);
    p := PackTwo(InContext(first), Plain(raw));
    PairIsPacked(p.batches[0], first, Plain(raw), p.buf);
    FirstIsUnwrapped(p.batches[0], first, Plain(raw), p.buf);
  }

  lemma FirstIsUnwrapped(b: Batch, c: ContextItem, y: Item, buf: array<Item>)
    requires c.deadline.Some? && IsCallFor(b, [InContext(c)] + [y], buf)
    ensures b.items == [InContext(c)] + [y] && b.arg.Length == 2 && b.arg[0] == c.inner
  {}

  // ---------------------------------------------------------------- packing, then cancelling

  method SetAll(packed: ContextItem, settings: seq<Setting>)
    requires packed.Valid() && packed.settings == []
    modifies packed`values, packed`settings
    ensures packed.Valid() && packed.settings == settings
  {
    hide RecordAll;
    for i := 0 to |settings|
      invariant packed.Valid() && packed.settings == settings[..i]
    {
      packed.WithChildCtxValue(settings[i].key, settings[i].id, settings[i].value);
    }
  }

  lemma NothingRecorded()
    ensures RecordAll([]) == map[]
  {}

  /** A child of a batch, after its packed item was cancelled. */
  twostate predicate CancelledWith(c: ContextItem, settings: seq<Setting>)
    reads c
  {
    && GivesLast(c.layers, old(c.layers), settings, c.Id())
    && c.done == (old(c.done) || c.hasCancel)
    && (!old(c.done) && c.hasCancel ==> c.seen.Some? && GivesLast(c.seen.value, old(c.layers), settings, c.Id()))
  }

  /** What is done with a packed item once it was sent: values are set for its children, and it is cancelled. */
  method SetAndCancel(packed: ContextItem, settings: seq<Setting>, expired: bool)
    requires IsNew(packed)
    requires settings != [] ==> forall c :: c in packed.children ==> c.id.Some?
    modifies packed`values, packed`settings, packed`done, packed`seen
    modifies packed.children`layers, packed.children`done, packed.children`seen
    ensures expired ==> forall c :: c in packed.children ==>
      c.layers == old(c.layers) && c.done == old(c.done) && c.seen == old(c.seen)
    ensures !expired ==> packed.done && forall c :: c in packed.children ==> CancelledWith(c, settings)
  {
    hide GivesLast, RecordAll;
    NothingRecorded();
    SetAll(packed, settings);
    packed.done := expired;
    label sent:
    packed.Cancel();
    if !expired {
      forall c | c in packed.children ensures CancelledWith(c, settings) {
        assert packed.Released@sent(c);
      }
    }
  }

  lemma ItemsAreChildren(b: Batch, items: seq<Item>, buf: array<Item>)
    requires items != [] && items[0].InContext? && items[0].item.deadline.Some? && IsCallFor(b, items, buf)
    ensures b.packed != null && b.packed.children == ChildrenOf(items)
  {}

  /** The context items of the pending ones. */
  ghost function PendingChildren(p: Packer): set<ContextItem>
    requires p.len <= p.buf.Length
    reads p, p.buf
  {
    set k | 0 <= k < p.len && p.buf[k].InContext? :: p.buf[k].item
  }

  /**
   * Packing a batch, setting values for its children and cancelling the packed item: every context item of the
   * batch gets, under every key, the last value set for its id, before it is cancelled; unless the packed item has
   * expired by then, which leaves them all as they are.
   */
  method PackAndCancel(p: Packer, settings: seq<Setting>, expired: bool) returns (packed: ContextItem)
    requires p.Consistent() && p.len > 0 && p.BatchSizeOk(p.len)
    requires p.buf[0].InContext? && p.buf[0].item.deadline.Some?
    requires settings != [] ==> forall c :: c in PendingChildren(p) ==> c.id.Some?
    modifies p`len, p`batches, p`copies, p`target, PendingChildren(p)
    ensures p.target == old(p.target) + [InContext(packed)]
    ensures expired ==> forall c :: c in old(PendingChildren(p)) ==>
      c.layers == old(c.layers) && c.done == old(c.done) && c.seen == old(c.seen)
    ensures !expired ==> packed.done && forall c :: c in old(PendingChildren(p)) ==> CancelledWith(c, settings)
    ensures !expired ==> forall c :: c in old(PendingChildren(p)) && c.Valid() && c.inner.Plain? ==>
      && GivesLast(c.layers, old(c.layers), settings, c.inner.raw.id)
      && (c.hasCancel ==> c.done)
  {
    hide Concat, Sent, ChildrenOf, Unwrapped, GivesLast, RecordAll, IsCallFor;
    ghost var items, children := p.buf[..p.len], PendingChildren(p);
    p.FlushCopied();
    packed := p.target[|p.target| - 1].item;
    ItemsAreChildren(p.batches[|p.batches| - 1], items, p.buf);
    forall c { ChildrenAre(items, c); }
    assert forall c :: c in children <==> InContext(c) in items;
    label sent:
    SetAndCancel(packed, settings, expired);
    if !expired {
      forall c | c in children ensures CancelledWith(c, settings) {
        assert CancelledWith@sent(c, settings);
      }
    }
  }
}
