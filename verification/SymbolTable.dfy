/** Forward references while lowering: lookups that leave placeholders behind, and upserts that fill them in place.
    A handle is an index into an append-only store, so every copy of it sees later changes of its cell. One store
    serves all kinds of symbol here; a cell knows its kind. */
module SymbolTable {
  import opened Wrappers
  import opened Text

  type Name = bytes
  type Handle = nat

  datatype Kind = StructKind | EnumKind | TypeAliasKind | FunctionKind | GlobalKind | TraitKind

  datatype Key = Key(kind: Kind, name: Name)

  /** A placeholder has no body. What a body says does not matter to the table. */
  datatype Definition = Definition(key: Key, body: Option<nat>)

  datatype Table = Table(
    cells: seq<Definition>,
    entries: map<Key, Handle>,
    variants: map<Name, Handle>,
    added: set<Name>)

  const EMPTY: Table := Table([], map[], map[], {})

  function Placeholder(key: Key): Definition {
    Definition(key, None)
  }

  function Append(t: Table, d: Definition): Table {
    t.(cells := t.cells + [d], entries := t.entries[d.key := |t.cells|])
  }

  /** Lookup of a name that may not be defined yet. */
  function GetOrInsert(t: Table, key: Key): (Table, Handle)
    ensures key in GetOrInsert(t, key).0.entries && GetOrInsert(t, key).0.entries[key] == GetOrInsert(t, key).1
  {
    if key in t.entries then (t, t.entries[key]) else (Append(t, Placeholder(key)), |t.cells|)
  }

  /** The path of a variant without its last segment. */
  function EnclosingEnum(variant: Name): Name {
    var parts := Split(variant);
    Join(parts[..|parts| - 1])
  }

  function GetVariantOrInsert(t: Table, variant: Name): (Table, Handle) {
    if variant in t.variants then (t, t.variants[variant])
    else
      var (found, handle) := GetOrInsert(t, Key(EnumKind, EnclosingEnum(variant)));
      (found.(variants := found.variants[variant := handle]), handle)
  }

  /** Definition of a name: written into the cell that every earlier handle of the name points at. */
  function Upsert(t: Table, d: Definition): (Table, Handle)
    requires Valid(t)
  {
    var noted := t.(added := t.added + {d.key.name});
    if d.key in t.entries
    then (noted.(cells := t.cells[t.entries[d.key] := d]), t.entries[d.key])
    else (Append(noted, d), |t.cells|)
  }

  function AddVariants(variants: map<Name, Handle>, enumName: Name, names: seq<Name>, handle: Handle): map<Name, Handle> {
    if names == [] then variants
    else AddVariants(variants, enumName, names[..|names| - 1], handle)[enumName + SEPARATOR + names[|names| - 1] := handle]
  }

  function UpsertEnum(t: Table, name: Name, body: Option<nat>, names: seq<Name>): (Table, Handle)
    requires Valid(t)
  {
    var (upserted, handle) := Upsert(t, Definition(Key(EnumKind, name), body));
    (upserted.(variants := AddVariants(upserted.variants, name, names, handle)), handle)
  }

  // ---------------------------------------------------------------------------
  // Invariant
  // ---------------------------------------------------------------------------

  /** Names and cells correspond one to one. */
  predicate Valid(t: Table) {
    && (forall k | k in t.entries :: t.entries[k] < |t.cells| && t.cells[t.entries[k]].key == k)
    && (forall h | 0 <= h < |t.cells| :: t.cells[h].key in t.entries && t.entries[t.cells[h].key] == h)
  }

  /** Every variant points at the cell of the enum its path names. */
  predicate VariantsEnclosed(t: Table) {
    forall v | v in t.variants ::
      var key := Key(EnumKind, EnclosingEnum(v)); key in t.entries && t.entries[key] == t.variants[v]
  }

  /** The last segment of a path does not end in a stray colon. */
  predicate EndsCleanly(name: Name) {
    var parts := Split(name);
    var last := parts[|parts| - 1];
    last != [] ==> last[|last| - 1] != COLON
  }

  /** An enum name whose variants' paths lead back to it. */
  predicate LegalEnum(name: Name, names: seq<Name>) {
    EndsCleanly(name) && forall i | 0 <= i < |names| :: COLON !in names[i]
  }

  lemma {:induction false} NoColonNoSeparator(s: bytes)
    requires COLON !in s
    ensures FindSeparator(s) == |s|
  {
    assert forall k | 0 <= k < |s| :: s[k] != COLON;
  }

  /** Where the first separator of a qualified name is: its own, or the one appended, one byte early after a colon. */
  lemma {:induction false} SeparatorAfter(s: bytes, v: bytes)
    ensures FindSeparator(s + SEPARATOR + v)
      == if FindSeparator(s) < |s| then FindSeparator(s)
         else if s != [] && s[|s| - 1] == COLON then |s| - 1
         else |s|
    decreases |s|
  {
    var q := s + SEPARATOR + v;
    if |s| == 1 {
      assert q[1..] == [] + SEPARATOR + v;
      SeparatorAfter([], v);
    } else if |s| >= 2 {
      assert q[1..] == s[1..] + SEPARATOR + v;
      SeparatorAfter(s[1..], v);
    }
  }

  lemma {:induction false} SplitAtFirst(s: bytes)
    ensures var i := FindSeparator(s);
      if i == |s| then Split(s) == [s]
      else
        var tail := Split(s[i + 2..]);
        tail != [] && Split(s) == [s[..i]] + tail && Split(s)[|Split(s)| - 1] == tail[|tail| - 1]
  {
  }

  /** Appending a colon-free segment to a path appends exactly that segment, unless the path ends in a stray colon. */
  lemma {:induction false} SplitQualified(name: Name, v: Name)
    requires EndsCleanly(name) && COLON !in v
    ensures Split(name + SEPARATOR + v) == Split(name) + [v]
    decreases |name|
  {
    hide FindSeparator, Split;
    var q := name + SEPARATOR + v;
    var i := FindSeparator(name);
    SeparatorAfter(name, v);
    SplitAtFirst(name);
    SplitAtFirst(q);
    if i == |name| {
      NoColonNoSeparator(v);
      SplitAtFirst(v);
      assert q[..i] == name && q[i + 2..] == v;
    } else {
      assert q[..i] == name[..i] && q[i + 2..] == name[i + 2..] + SEPARATOR + v;
      SplitQualified(name[i + 2..], v);
      assert Split(q) == [name[..i]] + (Split(name[i + 2..]) + [v]);
    }
  }

  /** After a stray colon the separator is found one byte early, and the enclosing path comes out one byte short. */
  lemma {:induction false} StrayColonLosesByte(name: Name, v: Name)
    requires !EndsCleanly(name) && COLON !in v
    ensures |Split(name + SEPARATOR + v)| >= 2 && |EnclosingEnum(name + SEPARATOR + v)| == |name| - 1
    decreases |name|
  {
    hide FindSeparator, Split;
    var q := name + SEPARATOR + v;
    var i := FindSeparator(name);
    SeparatorAfter(name, v);
    SplitAtFirst(name);
    SplitAtFirst(q);
    if i == |name| {
      var tail := [COLON] + v;
      assert q[..i - 1] == name[..i - 1] && q[i + 1..] == tail;
      ColonFirstNoSeparator(v);
      SplitAtFirst(tail);
      assert Split(q) == [name[..i - 1], tail];
      assert Split(q)[..1] == [name[..i - 1]];
    } else {
      var rest := name[i + 2..] + SEPARATOR + v;
      assert q[..i] == name[..i] && q[i + 2..] == rest;
      StrayColonLosesByte(name[i + 2..], v);
      var parts := Split(rest);
      assert Split(q) == [name[..i]] + parts;
      assert Split(q)[..|Split(q)| - 1] == [name[..i]] + parts[..|parts| - 1];
      assert ([name[..i]] + parts[..|parts| - 1])[1..] == parts[..|parts| - 1];
    }
  }

  lemma {:induction false} ColonFirstNoSeparator(v: bytes)
    requires COLON !in v
    ensures FindSeparator([COLON] + v) == |v| + 1
  {
    NoColonNoSeparator(v);
    assert ([COLON] + v)[1..] == v;
    assert forall k | 0 <= k < |v| :: v[k] != COLON;
  }

  /** A variant's path leads back to its enum exactly when the enum's own path does not end in a stray colon. */
  lemma {:induction false} VariantLeadsBackIff(name: Name, v: Name)
    requires COLON !in v
    ensures EnclosingEnum(name + SEPARATOR + v) == name <==> EndsCleanly(name)
  {
    hide Split, FindSeparator, EndsCleanly;
    if EndsCleanly(name) {
      SplitQualified(name, v);
      assert (Split(name) + [v])[..|Split(name)|] == Split(name);
      JoinOfSplit(name);
    } else {
      StrayColonLosesByte(name, v);
    }
  }

  // ---------------------------------------------------------------------------
  // Steps
  // ---------------------------------------------------------------------------

  datatype Op =
    | Lookup(key: Key)
    | LookupVariant(variant: Name)
    | Define(definition: Definition)
    | DefineEnum(name: Name, body: Option<nat>, names: seq<Name>)

  function Step(t: Table, op: Op): Table
    requires Valid(t)
  {
    match op
    case Lookup(key) => GetOrInsert(t, key).0
    case LookupVariant(variant) => GetVariantOrInsert(t, variant).0
    case Define(d) => Upsert(t, d).0
    case DefineEnum(name, body, names) => UpsertEnum(t, name, body, names).0
  }

  predicate Legal(op: Op) {
    op.DefineEnum? ==> LegalEnum(op.name, op.names)
  }

  /** What one operation writes: the definition of a key, if it defines that key. */
  function Written(op: Op, key: Key): Option<Definition> {
    match op
    case Define(d) => if d.key == key then Some(d) else None
    case DefineEnum(name, body, _) => if Key(EnumKind, name) == key then Some(Definition(key, body)) else None
    case _ => None
  }

  /** No handle, once issued, ever changes, for names and for variants. */
  predicate HandlesKept(before: Table, after: Table) {
    && (forall k | k in before.entries :: k in after.entries && after.entries[k] == before.entries[k])
    && (forall v | v in before.variants :: v in after.variants && after.variants[v] == before.variants[v])
  }

  lemma {:induction false} AddedVariants(variants: map<Name, Handle>, enumName: Name, names: seq<Name>, handle: Handle)
    ensures var after := AddVariants(variants, enumName, names, handle);
      && (forall v | v in variants :: v in after && (after[v] == variants[v] || after[v] == handle))
      && (forall v | v in after ::
            (v in variants && after[v] == variants[v])
            || (after[v] == handle && exists i | 0 <= i < |names| :: v == enumName + SEPARATOR + names[i]))
      && (forall i | 0 <= i < |names| :: enumName + SEPARATOR + names[i] in after)
    decreases |names|
  {
    if names != [] {
      var n := |names| - 1;
      AddedVariants(variants, enumName, names[..n], handle);
      var last := enumName + SEPARATOR + names[n];
      var shorter := AddVariants(variants, enumName, names[..n], handle);
      var after := AddVariants(variants, enumName, names, handle);
      forall v | v in after && !(v in variants && after[v] == variants[v])
        ensures after[v] == handle && exists i | 0 <= i < |names| :: v == enumName + SEPARATOR + names[i]
      {
        if v != last {
          var i :| 0 <= i < n && v == enumName + SEPARATOR + names[..n][i];
          assert names[..n][i] == names[i];
        }
      }
      forall i | 0 <= i < |names| ensures enumName + SEPARATOR + names[i] in after {
        if i < n {
          assert names[..n][i] == names[i];
        }
      }
    }
  }

  lemma {:induction false} GetOrInsertLaws(t: Table, key: Key)
    requires Valid(t)
    ensures var (after, handle) := GetOrInsert(t, key);
      && Valid(after) && after.variants == t.variants
      && (forall k | k in t.entries :: k in after.entries && after.entries[k] == t.entries[k])
  {
  }

  lemma {:induction false} UpsertLaws(t: Table, d: Definition)
    requires Valid(t)
    ensures var (after, handle) := Upsert(t, d);
      && Valid(after) && after.variants == t.variants
      && (forall k | k in t.entries :: k in after.entries && after.entries[k] == t.entries[k])
      && d.key in after.entries && after.entries[d.key] == handle && after.cells[handle] == d
      && (forall k | k in after.entries && k != d.key :: k in t.entries)
      && (forall k | k in t.entries && k != d.key :: after.cells[t.entries[k]] == t.cells[t.entries[k]])
  {
  }

  /** Every operation keeps names and cells in step, keeps every handle, and keeps variants with their enums. */
  lemma {:induction false} StepLaws(t: Table, op: Op)
    requires Valid(t) && VariantsEnclosed(t) && Legal(op)
    ensures var after := Step(t, op);
      Valid(after) && VariantsEnclosed(after) && HandlesKept(t, after)
  {
    hide EnclosingEnum, GetOrInsert, Upsert, UpsertEnum;
    match op
    case Lookup(key) => GetOrInsertLaws(t, key);
    case LookupVariant(variant) => GetOrInsertLaws(t, Key(EnumKind, EnclosingEnum(variant)));
    case Define(d) => UpsertLaws(t, d);
    case DefineEnum(name, body, names) => DefineEnumLaws(t, name, body, names);
  }

  lemma {:induction false} DefineEnumLaws(t: Table, name: Name, body: Option<nat>, names: seq<Name>)
    requires Valid(t) && VariantsEnclosed(t) && LegalEnum(name, names)
    ensures var after := UpsertEnum(t, name, body, names).0;
      Valid(after) && VariantsEnclosed(after) && HandlesKept(t, after)
  {
    hide EnclosingEnum, Upsert, AddVariants;
    var key := Key(EnumKind, name);
    var (upserted, handle) := Upsert(t, Definition(key, body));
    var after := UpsertEnum(t, name, body, names).0;
    UpsertLaws(t, Definition(key, body));
    AddedVariants(t.variants, name, names, handle);
    forall v | v in after.variants && after.variants[v] == handle &&
      exists i | 0 <= i < |names| :: v == name + SEPARATOR + names[i]
      ensures EnclosingEnum(v) == name
    {
      var i :| 0 <= i < |names| && v == name + SEPARATOR + names[i];
      VariantLeadsBackIff(name, names[i]);
    }
  }

  /** One operation changes the contents of exactly the key it defines. */
  lemma {:induction false} StepWrites(t: Table, op: Op, key: Key)
    requires Valid(t) && Valid(Step(t, op)) && key in Step(t, op).entries
    ensures var after := Step(t, op);
      after.cells[after.entries[key]]
        == if Written(op, key).Some? then Written(op, key).value
           else if key in t.entries then t.cells[t.entries[key]]
           else Placeholder(key)
  {
    hide EnclosingEnum, AddVariants;
  }

  // ---------------------------------------------------------------------------
  // Runs
  // ---------------------------------------------------------------------------

  lemma {:induction false} EmptyIsValid()
    ensures Valid(EMPTY) && VariantsEnclosed(EMPTY)
  {
  }

  predicate AllLegal(ops: seq<Op>) {
    forall i | 0 <= i < |ops| :: Legal(ops[i])
  }

  function Run(t: Table, ops: seq<Op>): (after: Table)
    requires Valid(t) && VariantsEnclosed(t) && AllLegal(ops)
    ensures Valid(after) && VariantsEnclosed(after)
    decreases |ops|
  {
    if ops == [] then t
    else
      var before := Run(t, ops[..|ops| - 1]);
      StepLaws(before, ops[|ops| - 1]);
      Step(before, ops[|ops| - 1])
  }

  /** Whatever happens later, a handle once issued stays the handle of its name or variant. */
  lemma {:induction false} HandlesNeverChange(t: Table, ops: seq<Op>)
    requires Valid(t) && VariantsEnclosed(t) && AllLegal(ops)
    ensures HandlesKept(t, Run(t, ops))
    decreases |ops|
  {
    hide Step, Valid, VariantsEnclosed;
    if ops != [] {
      HandlesNeverChange(t, ops[..|ops| - 1]);
      StepLaws(Run(t, ops[..|ops| - 1]), ops[|ops| - 1]);
    }
  }

  /** The last definition of a key in a history; the placeholder if there is none. */
  function Latest(ops: seq<Op>, key: Key): Definition {
    if ops == [] then Placeholder(key)
    else if Written(ops[|ops| - 1], key).Some? then Written(ops[|ops| - 1], key).value
    else Latest(ops[..|ops| - 1], key)
  }

  /** In every reachable table, every handle of a name reads the last definition of that name, wherever in the history
      the handle was issued, and the placeholder as long as there is none. */
  lemma {:induction false} HandlesSeeLatest(ops: seq<Op>, key: Key)
    requires AllLegal(ops)
    ensures var t := Run(EMPTY, ops);
      key in t.entries ==> t.cells[t.entries[key]] == Latest(ops, key)
    ensures key !in Run(EMPTY, ops).entries ==> Latest(ops, key) == Placeholder(key)
    decreases |ops|
  {
    hide Step, EnclosingEnum;
    if ops != [] {
      var before := Run(EMPTY, ops[..|ops| - 1]);
      var op := ops[|ops| - 1];
      HandlesSeeLatest(ops[..|ops| - 1], key);
      StepLaws(before, op);
      WrittenIsEntered(before, op, key);
      if key in Step(before, op).entries {
        StepWrites(before, op, key);
      }
    }
  }

  lemma {:induction false} WrittenIsEntered(t: Table, op: Op, key: Key)
    requires Valid(t)
    ensures Written(op, key).Some? ==> key in Step(t, op).entries
  {
    hide EnclosingEnum, AddVariants;
  }

  /** A handle taken before a definition reads that definition right after it. */
  lemma {:induction false} ForwardReferenceResolves(ops: seq<Op>, later: seq<Op>, key: Key, op: Op)
    requires AllLegal(ops) && AllLegal(later) && Legal(op)
    requires key in Run(EMPTY, ops).entries && Written(op, key).Some?
    ensures AllLegal(ops + later + [op])
    ensures var handle := Run(EMPTY, ops).entries[key];
      var t := Run(EMPTY, ops + later + [op]);
      key in t.entries && t.entries[key] == handle && t.cells[handle] == Written(op, key).value
  {
    hide Step, Valid, VariantsEnclosed, Written;
    var all := ops + later + [op];
    EmptyIsValid();
    RunSplits(EMPTY, ops, later + [op]);
    assert all == ops + (later + [op]);
    HandlesNeverChange(Run(EMPTY, ops), later + [op]);
    HandlesSeeLatest(all, key);
    assert all[|all| - 1] == op;
  }

  lemma {:induction false} RunSplits(t: Table, first: seq<Op>, second: seq<Op>)
    requires Valid(t) && VariantsEnclosed(t) && AllLegal(first) && AllLegal(second)
    ensures AllLegal(first + second)
    ensures Run(t, first + second) == Run(Run(t, first), second)
    decreases |second|
  {
    hide Step, Valid, VariantsEnclosed;
    var all := first + second;
    if second == [] {
      assert all == first;
    } else {
      assert all[..|all| - 1] == first + second[..|second| - 1];
      RunSplits(t, first, second[..|second| - 1]);
    }
  }

  /** Different names never share a handle, and a variant's handle is that of its enclosing enum. */
  lemma {:induction false} HandlesAreDistinct(ops: seq<Op>, a: Key, b: Key, variant: Name)
    requires AllLegal(ops)
    ensures var t := Run(EMPTY, ops);
      && (a in t.entries && b in t.entries && t.entries[a] == t.entries[b] ==> a == b)
      && (variant in t.variants ==>
            var key := Key(EnumKind, EnclosingEnum(variant));
            key in t.entries && t.entries[key] == t.variants[variant] && t.cells[t.variants[variant]] == Latest(ops, key))
  {
    hide EnclosingEnum;
    HandlesSeeLatest(ops, Key(EnumKind, EnclosingEnum(variant)));
  }

  predicate Defines(op: Op, name: Name) {
    (op.Define? && op.definition.key.name == name) || (op.DefineEnum? && op.name == name)
  }

  /** An operation that speaks of a key: it looks it up, it looks up one of its variants, or it defines it. */
  predicate Mentions(op: Op, key: Key) {
    match op
    case Lookup(k) => k == key
    case LookupVariant(variant) => key == Key(EnumKind, EnclosingEnum(variant))
    case Define(d) => d.key == key
    case DefineEnum(name, _, _) => key == Key(EnumKind, name)
  }

  predicate NamesVariant(op: Op, variant: Name) {
    match op
    case LookupVariant(v) => v == variant
    case DefineEnum(name, _, names) => exists i | 0 <= i < |names| :: variant == name + SEPARATOR + names[i]
    case _ => false
  }

  /** The names noted as added are exactly those that some operation defined; the table holds exactly the keys that were
      mentioned, and the variants that were looked up or belong to a defined enum. */
  lemma {:induction false} TableHoldsHistory(ops: seq<Op>, name: Name, key: Key, variant: Name)
    requires AllLegal(ops)
    ensures name in Run(EMPTY, ops).added <==> exists i | 0 <= i < |ops| :: Defines(ops[i], name)
    ensures key in Run(EMPTY, ops).entries <==> exists i | 0 <= i < |ops| :: Mentions(ops[i], key)
    ensures variant in Run(EMPTY, ops).variants <==> exists i | 0 <= i < |ops| :: NamesVariant(ops[i], variant)
    decreases |ops|
  {
    hide Step, Defines, Mentions, NamesVariant, Valid, VariantsEnclosed;
    if ops != [] {
      var n := |ops| - 1;
      EmptyIsValid();
      TableHoldsHistory(ops[..n], name, key, variant);
      StepHolds(Run(EMPTY, ops[..n]), ops[n], name, key, variant);
      assert ops == ops[..n] + [ops[n]];
    }
  }

  lemma {:induction false} StepHolds(t: Table, op: Op, name: Name, key: Key, variant: Name)
    requires Valid(t) && VariantsEnclosed(t)
    ensures name in Step(t, op).added <==> name in t.added || Defines(op, name)
    ensures key in Step(t, op).entries <==> key in t.entries || Mentions(op, key)
    ensures variant in Step(t, op).variants <==> variant in t.variants || NamesVariant(op, variant)
  {
    hide EnclosingEnum, AddVariants;
    if op.DefineEnum? {
      AddedVariants(t.variants, op.name, op.names, Step(t, op).entries[Key(EnumKind, op.name)]);
    }
  }

  // ---------------------------------------------------------------------------
  // The table
  // ---------------------------------------------------------------------------

  class SymbolTab {
    var cells: seq<Definition>
    var entries: map<Key, Handle>
    var variants: map<Name, Handle>
    var added: set<Name>

    ghost function Contents(): Table
      reads this
    {
      Table(cells, entries, variants, added)
    }

    constructor ()
      ensures Contents() == EMPTY
    {
      cells, entries, variants, added := [], map[], map[], {};
    }

    method NewCell(d: Definition) returns (handle: Handle)
      modifies this`cells, this`entries
      ensures Contents() == Append(old(Contents()), d) && handle == old(|cells|)
    {
      handle := |cells|;
      cells := cells + [d];
      entries := entries[d.key := handle];
    }

    method GetOrInsertPlaceholder(key: Key) returns (handle: Handle)
      modifies this`cells, this`entries
      ensures (Contents(), handle) == GetOrInsert(old(Contents()), key)
    {
      if key in entries {
        return entries[key];
      }
      handle := NewCell(Placeholder(key));
    }

    method GetEnumVariantOrInsertPlaceholder(variant: Name) returns (handle: Handle)
      modifies this`cells, this`entries, this`variants
      ensures (Contents(), handle) == GetVariantOrInsert(old(Contents()), variant)
    {
      if variant in variants {
        return variants[variant];
      }
      var parts := Split(variant);
      var enumName := Join(parts[..|parts| - 1]);
      handle := GetOrInsertPlaceholder(Key(EnumKind, enumName));
      variants := variants[variant := handle];
    }

    method UpsertDefinition(d: Definition) returns (handle: Handle)
      requires Valid(Contents())
      modifies this`cells, this`entries, this`added
      ensures Valid(Contents())
      ensures (Contents(), handle) == Upsert(old(Contents()), d)
    {
      UpsertLaws(Contents(), d);
      added := added + {d.key.name};
      if d.key in entries {
        handle := entries[d.key];
        cells := cells[handle := d];
      } else {
        handle := NewCell(d);
      }
    }

    method UpsertEnumDefinition(name: Name, body: Option<nat>, names: seq<Name>) returns (handle: Handle)
      requires Valid(Contents())
      modifies this
      ensures Valid(Contents())
      ensures (Contents(), handle) == UpsertEnum(old(Contents()), name, body, names)
    {
      handle := UpsertDefinition(Definition(Key(EnumKind, name), body));
      ghost var upserted := Contents();
      for i := 0 to |names|
        invariant cells == upserted.cells && entries == upserted.entries && added == upserted.added
        invariant variants == AddVariants(upserted.variants, name, names[..i], handle)
      {
        assert names[..i + 1][..i] == names[..i];
        variants := variants[name + SEPARATOR + names[i] := handle];
      }
      assert names[..|names|] == names;
    }
  }
}
