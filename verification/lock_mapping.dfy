/** The row-major index of the lock's transition table: seven states (rows)
    by five events (columns) stored in a one-dimensional array of 35 cells
    (cs232_Lab4_Proj1_2020). */
module LockMapping {

  /** The seven lock states of lockTypes.h, in declaration order. */
  datatype State = Nke | Ok1 | Ok2 | Ok3 | Fa1 | Fa2 | Fa3

  /** The five user events of lockTypes.h, in declaration order. */
  datatype Event = A | B | C | D | E

  /** Total number of cells of the table. */
  const TableSize: int := 35

  /** Number of columns (events) of the table. */
  const Columns: int := 5

  /** The integer value the C++ enumerator converts to. */
  function StateValue(s: State): (v: nat)
    ensures v < 7
  {
    match s
    case Nke => 0
    case Ok1 => 1
    case Ok2 => 2
    case Ok3 => 3
    case Fa1 => 4
    case Fa2 => 5
    case Fa3 => 6
  }

  /** The integer value the C++ enumerator converts to. */
  function EventValue(e: Event): (v: nat)
    ensures v < Columns
  {
    match e
    case A => 0
    case B => 1
    case C => 2
    case D => 3
    case E => 4
  }

  /** The enumerator with value v (the inverse of StateValue). */
  function StateOfValue(v: nat): (s: State)
    requires v < 7
    ensures StateValue(s) == v
  {
    if v == 0 then Nke else if v == 1 then Ok1 else if v == 2 then Ok2
    else if v == 3 then Ok3 else if v == 4 then Fa1 else if v == 5 then Fa2
    else Fa3
  }

  /** The enumerator with value v (the inverse of EventValue). */
  function EventOfValue(v: nat): (e: Event)
    requires v < Columns
    ensures EventValue(e) == v
  {
    if v == 0 then A else if v == 1 then B else if v == 2 then C
    else if v == 3 then D else E
  }

  /** mappingOfData: index = 5 * state + event. */
  function MappingOfData(s: State, e: Event): (index: int)
    ensures 0 <= index < TableSize
    ensures index / Columns == StateValue(s) && index % Columns == EventValue(e)
  {
    Columns * StateValue(s) + EventValue(e)
  }

  /** The cell of an index: row index div 5, column index mod 5. */
  function CellOf(index: int): (cell: (State, Event))
    requires 0 <= index < TableSize
    ensures MappingOfData(cell.0, cell.1) == index
  {
    (StateOfValue(index / Columns), EventOfValue(index % Columns))
  }

  /** Distinct (state, event) pairs get distinct indices. */
  lemma MappingInjective(s1: State, e1: Event, s2: State, e2: Event)
    requires MappingOfData(s1, e1) == MappingOfData(s2, e2)
    ensures s1 == s2 && e1 == e2
  {
    var i := MappingOfData(s1, e1);
    assert StateValue(s1) == i / Columns == StateValue(s2);
    assert EventValue(e1) == i % Columns == EventValue(e2);
  }

  /** CellOf undoes the mapping. */
  lemma CellOfMapping(s: State, e: Event)
    ensures CellOf(MappingOfData(s, e)) == (s, e)
  {
    var c := CellOf(MappingOfData(s, e));
    MappingInjective(c.0, c.1, s, e);
  }

  /** Every index of the table is the image of exactly one cell. */
  lemma EveryIndexHitOnce(index: int)
    requires 0 <= index < TableSize
    ensures exists s: State, e: Event :: MappingOfData(s, e) == index
    ensures forall s: State, e: Event :: MappingOfData(s, e) == index ==> (s, e) == CellOf(index)
  {
    var c := CellOf(index);
    assert MappingOfData(c.0, c.1) == index;
    forall s: State, e: Event | MappingOfData(s, e) == index
      ensures (s, e) == CellOf(index)
    {
      MappingInjective(s, e, c.0, c.1);
    }
  }
}
