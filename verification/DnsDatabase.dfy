/** The records a DNS server answers from: two tries under names, one of addresses, one of mail hosts. */
module DnsDatabase {
  import opened Bytes
  import opened Ip4Address
  import opened Trie

  /** What a list of additions leaves: the last one under each name. */
  function Applied<K>(additions: seq<(Word, K)>): map<Word, K> {
    if additions == [] then map[]
    else
      var last := additions[|additions| - 1];
      Applied(additions[..|additions| - 1])[last.0 := last.1]
  }

  predicate Addable<K>(additions: seq<(Word, K)>) {
    forall i :: 0 <= i < |additions| ==> additions[i].0 != [] && Ascii(additions[i].0)
  }

  class Database {
    const mappingsA: TrieNode<Ip4Addr>
    const mappingsMx: TrieNode<seq<byte>>

    ghost function Repr(): set<object>
      reads mappingsA, mappingsMx
    {
      mappingsA.Nodes() + mappingsMx.Nodes()
    }

    ghost predicate Valid()
      reads mappingsA, mappingsMx, Repr()
    {
      mappingsA.Valid() && mappingsMx.Valid() && mappingsA.Nodes() !! mappingsMx.Nodes()
    }

    ghost function RecordsA(): map<Word, Ip4Addr>
      reads mappingsA, mappingsMx, Repr()
    {
      mappingsA.Entries()
    }

    ghost function RecordsMx(): map<Word, seq<byte>>
      reads mappingsA, mappingsMx, Repr()
    {
      mappingsMx.Entries()
    }

    constructor ()
      ensures Valid() && fresh(Repr()) && RecordsA() == map[] && RecordsMx() == map[]
    {
      hide Good, EntriesOf, TrieNode.State;
      var a := new TrieNode<Ip4Addr>();
      var mx := new TrieNode<seq<byte>>();
      assert a.Valid() && a.Entries() == map[] && a.Nodes() == {a};
      assert mx.Nodes() == {mx} && mx.Entries() == map[];
      mappingsA := a;
      mappingsMx := mx;
      new;
      ghost var one: set<object>, other: set<object> := {a}, {mx};
      assert Repr() == one + other;
      assert RecordsA() == a.Entries() && RecordsMx() == mx.Entries();
    }

    /** The node the trie returns is used without a test, so the name must not be empty. */
    method AddRecordA(name: Word, addr: Ip4Addr)
      requires Valid() && name != [] && Ascii(name)
      modifies Repr()
      ensures Valid() && fresh(Repr() - old(Repr()))
      ensures RecordsA() == old(RecordsA())[name := addr] && RecordsMx() == old(RecordsMx())
    {
      hide Good, EntriesOf;
      mappingsA.Put(name, addr);
    }

    /** A name may have any byte that the walk does not get to. */
    method SearchRecordA(name: Word) returns (r: Option<Ip4Addr>)
      requires Valid() && Walkable(RecordsA(), name)
      ensures r == if name in RecordsA() then Some(RecordsA()[name]) else None
    {
      var res := mappingsA.Search(name);
      if !(res != null && res.marked) {
        return None;
      }
      return Some(res.key);
    }

    method AddRecordMx(name: Word, res: seq<byte>)
      requires Valid() && name != [] && Ascii(name)
      modifies Repr()
      ensures Valid() && fresh(Repr() - old(Repr()))
      ensures RecordsMx() == old(RecordsMx())[name := res] && RecordsA() == old(RecordsA())
    {
      hide Good, EntriesOf;
      mappingsMx.Put(name, res);
    }

    method SearchRecordMx(name: Word) returns (r: Option<seq<byte>>)
      requires Valid() && Walkable(RecordsMx(), name)
      ensures r == if name in RecordsMx() then Some(RecordsMx()[name]) else None
    {
      var res := mappingsMx.Search(name);
      if !(res != null && res.marked) {
        return None;
      }
      return Some(res.key);
    }

    /** The server's loading loops. */
    method LoadA(additions: seq<(Word, Ip4Addr)>)
      requires Valid() && Addable(additions)
      modifies Repr()
      ensures Valid() && fresh(Repr() - old(Repr()))
      ensures RecordsA() == old(RecordsA()) + Applied(additions) && RecordsMx() == old(RecordsMx())
    {
      hide Good, EntriesOf;
      for i := 0 to |additions|
        invariant Valid() && fresh(Repr() - old(Repr()))
        invariant RecordsA() == old(RecordsA()) + Applied(additions[..i]) && RecordsMx() == old(RecordsMx())
      {
        AppliedOneMore(additions, i, old(RecordsA()));
        AddRecordA(additions[i].0, additions[i].1);
      }
      assert additions[..|additions|] == additions;
    }

    method LoadMx(additions: seq<(Word, seq<byte>)>)
      requires Valid() && Addable(additions)
      modifies Repr()
      ensures Valid() && fresh(Repr() - old(Repr()))
      ensures RecordsMx() == old(RecordsMx()) + Applied(additions) && RecordsA() == old(RecordsA())
    {
      hide Good, EntriesOf;
      for i := 0 to |additions|
        invariant Valid() && fresh(Repr() - old(Repr()))
        invariant RecordsMx() == old(RecordsMx()) + Applied(additions[..i]) && RecordsA() == old(RecordsA())
      {
        AppliedOneMore(additions, i, old(RecordsMx()));
        AddRecordMx(additions[i].0, additions[i].1);
      }
      assert additions[..|additions|] == additions;
    }
  }

  lemma AppliedOneMore<K>(additions: seq<(Word, K)>, i: nat, before: map<Word, K>)
    requires i < |additions|
    ensures before + Applied(additions[..i + 1])
         == (before + Applied(additions[..i]))[additions[i].0 := additions[i].1]
  {
    assert additions[..i + 1][..i] == additions[..i];
  }

  /** A name is found exactly when it was added, with what it was added with last. */
  lemma {:induction false} LastAdditionWins<K>(additions: seq<(Word, K)>, name: Word)
    ensures name in Applied(additions) <==> exists i :: 0 <= i < |additions| && additions[i].0 == name
    ensures forall i :: 0 <= i < |additions| && additions[i].0 == name
              && (forall j :: i < j < |additions| ==> additions[j].0 != name)
              ==> name in Applied(additions) && Applied(additions)[name] == additions[i].1
    decreases |additions|
  {
    if additions != [] {
      var init := additions[..|additions| - 1];
      LastAdditionWins(init, name);
      assert forall i :: 0 <= i < |init| ==> init[i] == additions[i];
      assert name in Applied(init) ==> exists i :: 0 <= i < |init| && init[i].0 == name;
    }
  }
}
