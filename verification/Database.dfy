// The disassembler's database as the transactions see it. What it makes of a write
// is an answer to what is asked: a write may fail, may do something else than asked,
// and may raise an exception.
module Database {
  import opened Machine

  type Address = uint64

  // A type identifier: neither 0 nor BADADDR.
  type Tid = x: int | 0 < x < 0xFFFF_FFFF_FFFF_FFFF witness 1

  type Definition = int

  datatype NamedType = NamedType(tid: Tid, definition: Definition, owned: bool)

  type Types = map<string, NamedType>

  // The type set at an address: one that names a stored type, or any other.
  datatype TypeInfo = Reference(name: string) | Other(code: int, pointer: bool)

  datatype Flags = Flags(unknown: bool, bits: nat)

  // Everything kept about addresses rather than about names.
  datatype Items = Items(
    tinfo: map<Address, TypeInfo>,
    head: map<Address, Address>,
    size: map<Address, nat>,
    flags: map<Address, Flags>)

  datatype SaveOutcome = Saved | NotSaved | Raised

  // What the database makes of one write to a type name: whether a read before it
  // raises an exception, what it reports, what it leaves under the name, whether a
  // read after it raises one, and whether ownership and provenance read back.
  datatype Effect = Effect(
    raisesBefore: bool,
    outcome: SaveOutcome,
    left: Option<NamedType>,
    raisesAfter: bool,
    metadataReadsBack: bool)

  // What is asked under a type name: to store a definition, or to remove the type.
  datatype Ask = Store(definition: Definition) | Remove

  type Answer = Ask -> Effect

  // What is asked about an address: to set or remove its type, to create an item of
  // some size, or to delete the items of so many addresses.
  datatype ItemAsk = SetType(info: TypeInfo) | RemoveType | CreateItem(size: nat) | DeleteItems(size: nat)

  datatype ItemEffect = ItemEffect(left: Items, reported: bool, raised: bool)

  type ItemAnswer = (Items, Address, ItemAsk) -> ItemEffect

  ghost predicate SameExcept(a: Types, b: Types, name: string) {
    forall n :: n != name ==> Lookup(a, n) == Lookup(b, n)
  }

  ghost predicate SameDefinition(a: Types, b: Types, name: string) {
    && (name in a <==> name in b)
    && (name in a && name in b ==> a[name].definition == b[name].definition)
  }

  function TidIn(types: Types, name: string): Option<Tid> {
    if name in types then Some(types[name].tid) else None
  }

  // The address's type does not name a type that is missing from the store.
  predicate NoDanglingType(items: Items, types: Types, ea: Address) {
    ea in items.tinfo && items.tinfo[ea].Reference? ==> items.tinfo[ea].name in types
  }

  // What a write about an address leaves: anything, except that the database never
  // newly gives the address a type that names a missing one.
  function Landed(items: Items, types: Types, ea: Address, ask: ItemAsk, answer: ItemAnswer): Items {
    var left := answer(items, ea, ask).left;
    if NoDanglingType(left, types, ea) || Lookup(left.tinfo, ea) == Lookup(items.tinfo, ea) then left else items
  }

  class IDB {
    var types: Types
    var items: Items

    method SetNamedType(name: string, definition: Definition, answer: Answer) returns (outcome: SaveOutcome)
      modifies `types
      ensures types == Put(old(types), name, answer(Store(definition)).left)
      ensures outcome == answer(Store(definition)).outcome
    {
      var effect := answer(Store(definition));
      types := Put(types, name, effect.left);
      outcome := effect.outcome;
    }

    method DeleteNamedType(name: string, answer: Answer) returns (reported: bool)
      modifies `types
      ensures types == Put(old(types), name, answer(Remove).left) && reported == answer(Remove).outcome.Saved?
    {
      var effect := answer(Remove);
      types := Put(types, name, effect.left);
      reported := effect.outcome.Saved?;
    }

    method WriteItems(ea: Address, ask: ItemAsk, answer: ItemAnswer) returns (reported: bool, raised: bool)
      modifies `items
      ensures items == Landed(old(items), types, ea, ask, answer)
      ensures reported == answer(old(items), ea, ask).reported && raised == answer(old(items), ea, ask).raised
    {
      reported, raised := answer(items, ea, ask).reported, answer(items, ea, ask).raised;
      items := Landed(items, types, ea, ask, answer);
    }

    method TidOf(name: string) returns (tid: Option<Tid>)
      ensures tid == TidIn(types, name)
    {
      tid := if name in types then Some(types[name].tid) else None;
    }
  }
}
