/** Looking a request up in the tree of packets by the address of its packet. */
module AvlEntries {
  import opened DiskLedger
  import opened Wrappers

  /** An entry with its subtrees. How the tree is balanced does not matter here. */
  datatype Tree = Leaf | Node(left: Tree, key: nat, request: Request, right: Tree)

  function Entries(t: Tree): set<(nat, Request)> {
    if t.Leaf? then {} else Entries(t.left) + {(t.key, t.request)} + Entries(t.right)
  }

  /** Insertion compares with strictly greater; rotations may leave equal keys on either side. */
  ghost predicate Ordered(t: Tree) {
    t.Node? ==>
      && Ordered(t.left) && Ordered(t.right)
      && (forall e <- Entries(t.left) :: e.0 <= t.key)
      && (forall e <- Entries(t.right) :: t.key <= e.0)
  }

  function Find(t: Tree, address: nat): Option<Request> {
    if t.Leaf? then None
    else if address == t.key then Some(t.request)
    else Find(if address > t.key then t.right else t.left, address)
  }

  predicate Has(t: Tree, address: nat) {
    exists e <- Entries(t) :: e.0 == address
  }

  /** Only one subtree can have the address. */
  lemma HasNode(t: Tree, address: nat)
    requires t.Node? && Ordered(t) && address != t.key
    ensures Has(t, address) <==> Has(if address > t.key then t.right else t.left, address)
    ensures forall e <- Entries(if address > t.key then t.right else t.left) :: e in Entries(t)
  {
    var next := if address > t.key then t.right else t.left;
    if e :| e in Entries(t) && e.0 == address {
      assert e in Entries(t.left) || e == (t.key, t.request) || e in Entries(t.right);
      assert e in Entries(next);
    }
    if Has(next, address) {
      var e :| e in Entries(next) && e.0 == address;
      assert e in Entries(t);
    }
  }

  /** The search returns a request of the address, if and only if the tree has one. */
  lemma {:induction false} FindExact(t: Tree, address: nat)
    requires Ordered(t)
    ensures Find(t, address).Some? <==> Has(t, address)
    ensures Find(t, address).Some? ==> (address, Find(t, address).value) in Entries(t)
  {
    if t.Node? && address != t.key {
      HasNode(t, address);
      FindExact(if address > t.key then t.right else t.left, address);
    } else if t.Node? {
      assert (t.key, t.request) in Entries(t);
    }
  }

  /** With one entry for each address, the tree is a map. */
  lemma FindIsLookup(t: Tree, lookup: map<nat, Request>, address: nat)
    requires Ordered(t)
    requires forall a: nat, r: Request :: (a, r) in Entries(t) <==> a in lookup && lookup[a] == r
    ensures Find(t, address) == if address in lookup then Some(lookup[address]) else None
  {
    FindExact(t, address);
    if address in lookup {
      assert (address, lookup[address]) in Entries(t);
    }
  }
}
