/** Versions and pinned readers. */
module Mvcc {

  /** A finite nonempty set of numbers has a least one. */
  lemma Least(s: set<nat>) returns (m: nat)
    requires s != {}
    ensures m in s && forall x :: x in s ==> m <= x
  {
    m :| m in s;
    var rest := s - {m};
    if rest != {} {
      var r := Least(rest);
      assert s == rest + {m};
      m := if r < m then r else m;
    }
  }

  class MvccManager {
    /** The latest committed version. */
    var committed: nat
    /** The last write-transaction id handed out. */
    var txIds: nat
    /** How many readers are pinned at each version. */
    var activeReaders: map<nat, nat>

    /** The snapshots of all live readers. */
    ghost var live: multiset<nat>

    /** The table counts exactly the live snapshots, none of which is ahead of the last commit. */
    ghost predicate Valid()
      reads this
    {
      && (forall v :: v in activeReaders <==> v in live)
      && (forall v :: v in activeReaders ==> activeReaders[v] == live[v])
      && (forall v :: v in live ==> v <= committed)
      && committed <= txIds
    }

    constructor (initial: nat)
      ensures Valid() && committed == txIds == initial && live == multiset{}
    {
      committed, txIds, activeReaders, live := initial, initial, map[], multiset{};
    }

    /** Pins the latest committed version. */
    method BeginRead() returns (v: nat)
      requires Valid()
      modifies this`activeReaders, this`live
      ensures Valid() && v == committed && live == old(live) + multiset{v}
    {
      v := committed;
      activeReaders := activeReaders[v := (if v in activeReaders then activeReaders[v] else 0) + 1];
      live := live + multiset{v};
    }

    /** Releases a pinned version; a version nobody holds is left as it is. */
    method EndRead(v: nat)
      requires Valid()
      modifies this`activeReaders, this`live
      ensures Valid() && live == old(live) - multiset{v}
    {
      if v in activeReaders {
        var count := activeReaders[v] - 1;
        activeReaders := if count == 0 then activeReaders - {v} else activeReaders[v := count];
      }
      live := live - multiset{v};
    }

    method BeginWrite() returns (id: nat)
      requires Valid()
      modifies this`txIds
      ensures Valid() && id == old(txIds) + 1 == txIds && id > committed
    {
      txIds := txIds + 1;
      return txIds;
    }

    function ReserveCommitVersion(): (v: nat)
      reads this
      ensures v > committed
    {
      committed + 1
    }

    /** Makes a version visible to new readers; versions never go back. */
    method PublishCommit(version: nat)
      requires Valid()
      modifies this`committed, this`txIds
      ensures Valid() && committed == if version > old(committed) then version else old(committed)
      ensures txIds == if version > old(txIds) then version else old(txIds)
    {
      if committed < version { committed := version; }
      if txIds < version { txIds := version; }
    }

    /** The oldest version a live reader depends on, or the committed one if there are none. */
    method OldestRequiredVersion() returns (v: nat)
      requires Valid()
      ensures live == multiset{} ==> v == committed
      ensures live != multiset{} ==> v in live && forall w :: w in live ==> v <= w
      ensures v < committed <==> exists w :: w in live && w < committed
    {
      if activeReaders.Keys == {} {
        assert forall w :: w !in live;
        return committed;
      }
      ghost var least := Least(activeReaders.Keys);
      v :| v in activeReaders.Keys && forall w :: w in activeReaders.Keys ==> v <= w;
    }
  }
}
