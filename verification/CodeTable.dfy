/** The 256-entry instruction table, as the loops of the source build it. */
module CodeTable {
  import opened Bytes

  const NEAR_SIZE := 4
  const NUM_MODES := 9
  const TABLE_SIZE := 256

  /** One half of a table entry; size 0 means that the size follows the opcode as a varint. */
  datatype Template = Noop | Add(size: nat) | Run(size: nat) | Copy(size: nat, mode: nat)

  datatype Entry = Entry(first: Template, second: Template)

  /** The entry of an opcode in closed form. */
  function EntryOf(op: byte): (e: Entry)
    ensures e.first.Copy? ==> e.first.mode < NUM_MODES
    ensures e.second.Copy? ==> e.second.mode < NUM_MODES
    ensures !e.second.Noop? ==> !e.first.Noop? && e.first.size > 0 && e.second.size > 0
  {
    if op == 0 || op == 255 then Entry(Noop, Noop)
    else if op <= 17 then Entry(Add(op - 1), Noop)
    else if op == 18 then Entry(Run(0), Noop)
    else if op <= 162 then
      var k := op - 19;
      Entry(Copy(if k % 16 == 0 then 0 else k % 16 + 3, k / 16), Noop)
    else if op <= 234 then
      var k := op - 163;
      Entry(Add(k / 18 + 1), Copy(k % 3 + 4, k % 18 / 3))
    else
      var k := op - 235;
      Entry(Copy(4, k / 4), Add(k % 4 + 1))
  }

  /** Where each instruction stands: the layout of the table, from 1, 18, 19, 163 and 235 on. */
  lemma {:induction false} Layout(size: nat, mode: nat)
    ensures EntryOf(0) == EntryOf(255) == Entry(Noop, Noop) && EntryOf(18) == Entry(Run(0), Noop)
    ensures size <= 16 ==> EntryOf(1 + size) == Entry(Add(size), Noop)
    ensures mode < 9 ==> EntryOf(19 + 16 * mode) == Entry(Copy(0, mode), Noop)
    ensures mode < 9 && 4 <= size <= 18 ==> EntryOf(19 + 16 * mode + size - 3) == Entry(Copy(size, mode), Noop)
  {
  }

  lemma {:induction false} PairLayout(size: nat, mode: nat, add: nat)
    requires 1 <= add <= 4
    ensures mode < 6 && 4 <= size <= 6 ==>
              EntryOf(163 + 18 * (add - 1) + 3 * mode + size - 4) == Entry(Add(add), Copy(size, mode))
    ensures mode < 5 ==> EntryOf(235 + 4 * mode + add - 1) == Entry(Copy(4, mode), Add(add))
  {
  }

  /** The halves of an opcode in the order of the two passes. */
  function Passes(op: byte): seq<Template>
  {
    [EntryOf(op).first, EntryOf(op).second]
  }

  /** Position of the variable-size entry of each instruction. */
  const ADD_ANY: byte := 1
  const RUN_ANY: byte := 18
  function CopyAny(mode: nat): (op: byte)
    requires mode < NUM_MODES
    ensures EntryOf(op) == Entry(Copy(0, mode), Noop)
  {
    19 + 16 * mode
  }

  /** The source's `table[i++] = e`. */
  method Append(table: array<Entry>, i: nat, e: Entry) returns (next: nat)
    requires i < TABLE_SIZE && Filled(table, i) && e == EntryOf(i)
    modifies table
    ensures next == i + 1 && Filled(table, next)
  {
    table[i] := e;
    next := i + 1;
  }

  /** The nested loops fill the table with the closed form, entry 255 being left as the zeroed NOOP pair. */
  method Build() returns (table: array<Entry>)
    ensures fresh(table) && IsTable(table)
  {
    table := new Entry[TABLE_SIZE](_ => Entry(Noop, Noop));
    var i := Append(table, 0, Entry(Noop, Noop));
    for sz := 0 to 17
      invariant i == 1 + sz && Filled(table, i)
    {
      i := Append(table, i, Entry(Add(sz), Noop));
    }
    i := Append(table, i, Entry(Run(0), Noop));
    for m := 0 to NUM_MODES
      invariant i == 19 + 16 * m && Filled(table, i)
    {
      i := AppendCopies(table, i, m);
    }
    for a := 1 to 5
      invariant i == 163 + 18 * (a - 1) && Filled(table, i)
    {
      i := AppendAddCopies(table, i, a);
    }
    for m := 0 to NUM_MODES - 4
      invariant i == 235 + 4 * m && Filled(table, i)
    {
      for a := 1 to 5
        invariant i == 235 + 4 * m + a - 1 && Filled(table, i)
      {
        i := Append(table, i, Entry(Copy(4, m), Add(a)));
      }
    }
    assert i == 255;
  }

  method AppendCopies(table: array<Entry>, start: nat, m: nat) returns (i: nat)
    requires m < NUM_MODES && start == 19 + 16 * m && Filled(table, start)
    modifies table
    ensures i == start + 16 && Filled(table, i)
  {
    i := Append(table, start, Entry(Copy(0, m), Noop));
    for sz := 4 to 19
      invariant i == start + sz - 3 && Filled(table, i)
    {
      i := Append(table, i, Entry(Copy(sz, m), Noop));
    }
  }

  method AppendAddCopies(table: array<Entry>, start: nat, a: nat) returns (i: nat)
    requires 1 <= a <= 4 && start == 163 + 18 * (a - 1) && Filled(table, start)
    modifies table
    ensures i == start + 18 && Filled(table, i)
  {
    i := start;
    for m := 0 to NUM_MODES - 3
      invariant i == start + 3 * m && Filled(table, i)
    {
      for sz := 4 to 7
        invariant i == start + 3 * m + sz - 4 && Filled(table, i)
      {
        i := Append(table, i, Entry(Add(a), Copy(sz, m)));
      }
    }
  }

  ghost predicate IsTable(table: array<Entry>)
    reads table
  {
    table.Length == TABLE_SIZE && forall op: byte :: table[op] == EntryOf(op)
  }

  /** Entries below `n` are final; the rest are still zero. */
  ghost predicate Filled(table: array<Entry>, n: nat)
    reads table
  {
    && table.Length == TABLE_SIZE
    && n <= TABLE_SIZE
    && (forall op: byte :: op < n ==> table[op] == EntryOf(op))
    && (forall op: byte :: n <= op ==> table[op] == Entry(Noop, Noop))
  }
}
