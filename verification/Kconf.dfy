/** The kernel configuration registry (Extensions/kconf.h). */
module Kconf {
  import opened Bytes
  import opened CStrings

  const MAX_KEY_LEN: nat := 128
  const MAX_VAL_LEN: nat := 128
  const MAX_ENTRIES: nat := 256

  datatype Kind = STRING | INTEGER | BOOLEAN | HEX

  datatype Node = Node(key: CString, valStr: CString, valInt: int, valBool: bool, kind: Kind, active: bool)

  /** What a lookup yields, by the node's type. */
  datatype Value = StrVal(s: CString) | IntVal(n: int) | Other

  /** What the setters store. */
  type Settable = v: Value | !v.Other? witness IntVal(0)

  function ValueOf(n: Node): Value {
    match n.kind
    case STRING => StrVal(n.valStr)
    case INTEGER => IntVal(n.valInt)
    case _ => Other
  }

  /** What fits a buffer of `size` characters with its terminator. */
  function Cut(s: CString, size: nat): (r: CString)
    requires size > 0
    ensures |r| < size && r <= s && (r != s ==> |r| == size - 1)
  {
    if |s| < size then s else s[..size - 1]
  }

  /** A node after a value is stored in it; the other value fields keep what they held. */
  function Holding(n: Node, v: Settable): (n': Node)
    ensures ValueOf(n') == v && n'.key == n.key && n'.active == n.active
  {
    match v
    case StrVal(s) => n.(valStr := s, kind := STRING)
    case IntVal(k) => n.(valInt := k, kind := INTEGER)
  }

  // ---- strings ------------------------------------------------------------------------------

  /** kconf_streq. */
  method StrEq(a: CString, b: CString) returns (eq: bool)
    ensures eq <==> a == b
  {
    var i := 0;
    while At(a, i) != '\0' && At(b, i) != '\0'
      invariant 0 <= i <= |a| && i <= |b| && a[..i] == b[..i]
      decreases |a| - i
    {
      if At(a, i) != At(b, i) { return false; }
      i := i + 1;
    }
    eq := At(a, i) == At(b, i);
    assert i < |a| ==> a[i] in a;
    assert i < |b| ==> b[i] in b;
    assert eq ==> a == a[..i] && b == b[..i];
  }

  /** The copy loops, which leave room for the terminator. */
  method Copy(src: CString, size: nat) returns (dst: CString)
    requires size > 0
    ensures dst == Cut(src, size)
  {
    dst := [];
    var i := 0;
    while i < size - 1 && At(src, i) != '\0'
      invariant 0 <= i <= |src| && i < size && dst == src[..i]
      decreases size - i
    {
      assert src[i] in src;
      dst := dst + [src[i]];
      i := i + 1;
    }
    assert i < |src| ==> src[i] in src;
  }

  // ---- the table ------------------------------------------------------------------------------

  /** The first entry under `key`, or the length of the table. */
  function First(t: seq<Node>, key: CString): (i: nat)
    ensures i <= |t|
    ensures i < |t| ==> t[i].active && t[i].key == key
    ensures forall j :: 0 <= j < i ==> !(t[j].active && t[j].key == key)
  {
    if t == [] then 0
    else if t[0].active && t[0].key == key then 0
    else
      var i := First(t[1..], key);
      assert forall j :: 1 <= j < i + 1 ==> t[j] == t[1..][j - 1];
      i + 1
  }

  /** What every table built by sets satisfies. */
  ghost predicate WellFormed(t: seq<Node>) {
    |t| <= MAX_ENTRIES && forall i :: 0 <= i < |t| ==> t[i].active && |t[i].key| < MAX_KEY_LEN
  }

  ghost predicate KeysUnique(t: seq<Node>) {
    forall i, j :: 0 <= i < j < |t| ==> t[i].key != t[j].key
  }

  /** One set: the first entry under the key is changed, or one is appended under the key as
      far as it fits, or the table is full and nothing happens. */
  ghost predicate Sets(t: seq<Node>, key: CString, v: Settable, ok: bool, t': seq<Node>) {
    var i := First(t, key);
    if i < |t| then
      ok && t' == t[i := Holding(t[i], v)]
    else if |t| >= MAX_ENTRIES then
      !ok && t' == t
    else
      && ok && |t'| == |t| + 1 && t' == t + [t'[|t|]]
      && t'[|t|] == Holding(t'[|t|], v).(key := Cut(key, MAX_KEY_LEN), active := true)
  }

  class Registry {
    const entries: array<Node>
    var count: nat
    var version: nat

    ghost predicate Ready()
      reads this, entries
    {
      entries.Length == MAX_ENTRIES && count <= MAX_ENTRIES && WellFormed(Table())
    }

    ghost function Table(): seq<Node>
      reads this, entries
    {
      if count <= entries.Length then entries[..count] else []
    }

    /** kconf_init over the caller's memory, whose other contents stay. */
    constructor (memory: array<Node>)
      requires memory.Length == MAX_ENTRIES
      modifies memory
      ensures entries == memory && Ready() && Table() == [] && version == 1
    {
      entries := memory;
      count := 0;
      version := 1;
      new;
      var i := 0;
      while i < MAX_ENTRIES
        modifies memory
        invariant 0 <= i <= MAX_ENTRIES
      {
        memory[i] := memory[i].(active := false);
        i := i + 1;
      }
    }

    /** The search loop of kconf_lookup and of both setters. */
    method Find(key: CString) returns (i: nat)
      requires Ready()
      ensures i == First(Table(), key)
    {
      i := 0;
      while i < count
        invariant 0 <= i <= count
        invariant forall j :: 0 <= j < i ==> !(entries[j].active && entries[j].key == key)
      {
        var eq := StrEq(entries[i].key, key);
        if entries[i].active && eq { return; }
        i := i + 1;
      }
    }

    /** kconf_lookup. */
    method Lookup(key: Pointer<CString>) returns (node: Pointer<Node>)
      requires Ready()
      ensures node.To? <==> key.To? && First(Table(), key.target) < |Table()|
      ensures node.To? ==> node.target == Table()[First(Table(), key.target)]
    {
      if key.Null? { return Null; }
      var i := Find(key.target);
      node := if i < count then To(entries[i]) else Null;
    }

    /** kconf_set_str. */
    method SetStr(key: Pointer<CString>, val: Pointer<CString>) returns (ok: bool)
      requires Ready()
      modifies `count, entries
      ensures Ready() && forall i :: count <= i < MAX_ENTRIES ==> entries[i] == old(entries[i])
      ensures if key.Null? || val.Null? then !ok && Table() == old(Table())
              else Sets(old(Table()), key.target, StrVal(Cut(val.target, MAX_VAL_LEN)), ok, Table())
    {
      if key.Null? || val.Null? { return false; }
      ghost var t := Table();
      var i := Find(key.target);
      if i < count {
        var s := Copy(val.target, MAX_VAL_LEN);
        entries[i] := entries[i].(valStr := s, kind := STRING);
        return true;
      }
      if count >= MAX_ENTRIES { return false; }
      var k := Copy(key.target, MAX_KEY_LEN);
      var s := Copy(val.target, MAX_VAL_LEN);
      entries[count] := entries[count].(key := k, valStr := s, kind := STRING, active := true);
      count := count + 1;
      assert Table() == t + [entries[count - 1]];
      return true;
    }

    /** kconf_set_int. */
    method SetInt(key: Pointer<CString>, val: int) returns (ok: bool)
      requires Ready()
      modifies `count, entries
      ensures Ready() && forall i :: count <= i < MAX_ENTRIES ==> entries[i] == old(entries[i])
      ensures if key.Null? then !ok && Table() == old(Table())
              else Sets(old(Table()), key.target, IntVal(val), ok, Table())
    {
      if key.Null? { return false; }
      ghost var t := Table();
      var i := Find(key.target);
      if i < count {
        entries[i] := entries[i].(valInt := val, kind := INTEGER);
        return true;
      }
      if count >= MAX_ENTRIES { return false; }
      var k := Copy(key.target, MAX_KEY_LEN);
      entries[count] := entries[count].(key := k, valInt := val, kind := INTEGER, active := true);
      count := count + 1;
      assert Table() == t + [entries[count - 1]];
      return true;
    }
  }

  // ---- the finite map ---------------------------------------------------------------------------

  /** The table as lookups see it: the first entry under a key counts. */
  function MapOf(t: seq<Node>): map<CString, Value> {
    if t == [] then map[]
    else
      var m, last := MapOf(t[..|t| - 1]), t[|t| - 1];
      if last.key in m then m else m[last.key := ValueOf(last)]
  }

  lemma {:induction false} MapHas(t: seq<Node>, key: CString) returns (i: nat)
    requires key in MapOf(t)
    ensures i < |t| && t[i].key == key && MapOf(t)[key] == ValueOf(t[i])
    ensures forall j :: 0 <= j < i ==> t[j].key != key
    decreases |t|
  {
    var n := |t| - 1;
    if key in MapOf(t[..n]) {
      i := MapHas(t[..n], key);
    } else {
      i := n;
      forall j | 0 <= j < n ensures t[j].key != key {
        if t[j].key == key { MapBinds(t[..n], j); }
      }
    }
  }

  lemma {:induction false} MapBinds(t: seq<Node>, i: nat)
    requires i < |t|
    ensures t[i].key in MapOf(t)
    decreases |t|
  {
    if i == |t| - 1 {
    } else {
      MapBinds(t[..|t| - 1], i);
    }
  }

  /** A lookup is a lookup in the map, for every key and every table. */
  lemma LookupIsMap(t: seq<Node>, key: CString)
    requires WellFormed(t)
    ensures First(t, key) < |t| <==> key in MapOf(t)
    ensures key in MapOf(t) ==> ValueOf(t[First(t, key)]) == MapOf(t)[key]
  {
    var i := First(t, key);
    if key in MapOf(t) {
      var j := MapHas(t, key);
      assert i == j;
    } else if i < |t| {
      MapBinds(t, i);
    }
  }

  lemma {:induction false} MapUpdate(t: seq<Node>, i: nat, node: Node)
    requires i < |t| && node.key == t[i].key && forall j :: 0 <= j < i ==> t[j].key != node.key
    ensures MapOf(t[i := node]) == MapOf(t)[node.key := ValueOf(node)]
    decreases |t|
  {
    var n := |t| - 1;
    var t' := t[i := node];
    if i == n {
      assert t'[..n] == t[..n];
      if node.key in MapOf(t[..n]) {
        var j := MapHas(t[..n], node.key);
        assert false;
      }
    } else {
      MapUpdate(t[..n], i, node);
      assert t'[..n] == t[..n][i := node];
      MapBinds(t[..n], i);
    }
  }

  /** A map and the number of entries used up. */
  datatype Store = Store(m: map<CString, Value>, used: nat)

  function StoreOf(t: seq<Node>): Store {
    Store(MapOf(t), |t|)
  }

  /** A set binds a key that is bound already. Otherwise it uses up an entry, if there is one left,
      and binds the key as far as it fits, unless that is bound. */
  function StoreSet(s: Store, key: CString, v: Settable): (Store, bool) {
    var cut := Cut(key, MAX_KEY_LEN);
    if key in s.m then (s.(m := s.m[key := v]), true)
    else if s.used >= MAX_ENTRIES then (s, false)
    else (Store(if cut in s.m then s.m else s.m[cut := v], s.used + 1), true)
  }

  /** One set, under any key, is one set of the map. */
  lemma SetIsStoreSet(t: seq<Node>, key: CString, v: Settable, ok: bool, t': seq<Node>)
    requires WellFormed(t) && Sets(t, key, v, ok, t')
    ensures WellFormed(t') && (StoreOf(t'), ok) == StoreSet(StoreOf(t), key, v)
  {
    LookupIsMap(t, key);
    var i := First(t, key);
    if i < |t| {
      MapUpdate(t, i, t'[i]);
    } else if ok {
      assert t'[..|t|] == t;
    }
  }

  // ---- runs ------------------------------------------------------------------------------------

  /** A call of a setter; the value is the one it stores. */
  datatype Op = Op(key: CString, val: Settable)

  /** Tables visited by a run of sets from an empty registry, and what each set returned. */
  ghost predicate IsRun(ts: seq<seq<Node>>, ops: seq<Op>, oks: seq<bool>) {
    && |ts| == |ops| + 1 && |oks| == |ops| && ts[0] == []
    && (forall i :: 0 <= i < |ops| ==> Sets(ts[i], ops[i].key, ops[i].val, oks[i], ts[i + 1]))
  }

  function StoreRun(ops: seq<Op>): Store {
    if ops == [] then Store(map[], 0)
    else StoreSet(StoreRun(ops[..|ops| - 1]), ops[|ops| - 1].key, ops[|ops| - 1].val).0
  }

  /** Every run, whatever its keys, is a run of the map, down to which sets fail. */
  lemma {:induction false} RunRefinesMap(ts: seq<seq<Node>>, ops: seq<Op>, oks: seq<bool>, n: nat)
    requires IsRun(ts, ops, oks) && n <= |ops|
    ensures WellFormed(ts[n]) && StoreOf(ts[n]) == StoreRun(ops[..n])
    ensures n < |ops| ==> oks[n] == StoreSet(StoreRun(ops[..n]), ops[n].key, ops[n].val).1
    decreases n
  {
    if n == 0 {
    } else {
      RunRefinesMap(ts, ops, oks, n - 1);
      SetIsStoreSet(ts[n - 1], ops[n - 1].key, ops[n - 1].val, oks[n - 1], ts[n]);
      assert ops[..n][..n - 1] == ops[..n - 1];
    }
    if n < |ops| {
      SetIsStoreSet(ts[n], ops[n].key, ops[n].val, oks[n], ts[n + 1]);
    }
  }

  /** A lookup of a key that fits returns the value of the last successful set under it, whatever
      other keys were set. */
  lemma LookupLastSet(ops: seq<Op>, oks: seq<bool>, ts: seq<seq<Node>>, i: nat, n: nat)
    requires IsRun(ts, ops, oks) && i < n <= |ops| && oks[i] && |ops[i].key| < MAX_KEY_LEN
    requires forall j :: i < j < n ==> ops[j].key != ops[i].key
    ensures First(ts[n], ops[i].key) < |ts[n]| && ValueOf(ts[n][First(ts[n], ops[i].key)]) == ops[i].val
  {
    RunRefinesMap(ts, ops, oks, i);
    LastSetStays(ops, i, n);
    RunRefinesMap(ts, ops, oks, n);
    LookupIsMap(ts[n], ops[i].key);
  }

  lemma {:induction false} LastSetStays(ops: seq<Op>, i: nat, n: nat)
    requires i < n <= |ops| && |ops[i].key| < MAX_KEY_LEN && forall j :: i < j < n ==> ops[j].key != ops[i].key
    requires StoreSet(StoreRun(ops[..i]), ops[i].key, ops[i].val).1
    ensures var m := StoreRun(ops[..n]).m; ops[i].key in m && m[ops[i].key] == ops[i].val
    decreases n
  {
    assert ops[..n][..n - 1] == ops[..n - 1];
    if n == i + 1 {
    } else {
      LastSetStays(ops, i, n - 1);
    }
  }

  // ---- keys that fit -----------------------------------------------------------------------------

  /** With keys that fit only, every entry used up is a bound key. */
  lemma {:induction false} FittingKeys(ops: seq<Op>)
    requires forall i :: 0 <= i < |ops| ==> |ops[i].key| < MAX_KEY_LEN
    ensures |StoreRun(ops).m| == StoreRun(ops).used
    decreases |ops|
  {
    if ops == [] {
    } else {
      FittingKeys(ops[..|ops| - 1]);
    }
  }

  /** Then a set binds its key and no other, and fails exactly when its key is absent and 256 keys
      are bound. */
  lemma FittingSet(ops: seq<Op>, key: CString, v: Settable)
    requires forall i :: 0 <= i < |ops| ==> |ops[i].key| < MAX_KEY_LEN
    requires |key| < MAX_KEY_LEN
    ensures var m, r := StoreRun(ops).m, StoreSet(StoreRun(ops), key, v);
            && (r.1 <==> key in m || |m| < 256)
            && r.0.m == if r.1 then m[key := v] else m
  {
    FittingKeys(ops);
  }

  /** And no key repeats. */
  lemma {:induction false} FittingKeysUnique(ts: seq<seq<Node>>, ops: seq<Op>, oks: seq<bool>, n: nat)
    requires IsRun(ts, ops, oks) && n <= |ops| && forall i :: 0 <= i < |ops| ==> |ops[i].key| < MAX_KEY_LEN
    ensures KeysUnique(ts[n])
    decreases n
  {
    if n == 0 {
    } else {
      FittingKeysUnique(ts, ops, oks, n - 1);
      RunRefinesMap(ts, ops, oks, n - 1);
      var t, t', key := ts[n - 1], ts[n], ops[n - 1].key;
      assert Sets(t, key, ops[n - 1].val, oks[n - 1], t');
      forall j, k | 0 <= j < k < |t'| ensures t'[j].key != t'[k].key {
        assert j < |t| ==> t'[j].key == t[j].key;
        if k < |t| { assert t'[k].key == t[k].key; }
      }
    }
  }

  // ---- keys that do not fit ---------------------------------------------------------------------

  /** After a successful set the key is found, with its value, exactly when it is shorter than
      its buffer; a longer one is stored cut off and never compares equal. */
  lemma SetThenLookupIff(t: seq<Node>, key: CString, v: Settable, t': seq<Node>)
    requires WellFormed(t) && Sets(t, key, v, true, t')
    ensures First(t', key) < |t'| && ValueOf(t'[First(t', key)]) == v <==> |key| < 128
    ensures WellFormed(t')
  {
    var i, j := First(t, key), First(t', key);
    if |key| < MAX_KEY_LEN {
      assert t'[i].key == key && t'[i].active && forall k :: 0 <= k < i ==> t'[k] == t[k];
      assert i == j;
    }
  }

  /** Setting a key that does not fit twice leaves two entries under its cut-off form. */
  lemma LongKeyRepeats(t: seq<Node>, key: CString, v: Settable, t1: seq<Node>, v': Settable, t2: seq<Node>)
    requires WellFormed(t) && |key| >= MAX_KEY_LEN
    requires Sets(t, key, v, true, t1) && Sets(t1, key, v', true, t2)
    ensures !KeysUnique(t2)
  {
    SetThenLookupIff(t, key, v, t1);
    var n := |t|;
    assert t2[n] == t1[n] && t2[n].key == t2[n + 1].key;
  }
}
