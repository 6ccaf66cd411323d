/** Trees in the store: a reader decodes the tree that was committed when it began. */
module TreeSnapshots {
  import opened Common
  import opened Varint
  import opened Nodes
  import opened Trees
  import opened WalFrames
  import opened DbHeaders
  import opened Databases
  import TreeBytes
  import TreeTransactions

  /** However the database runs on, each page of the tree that the reader asks for decodes to the page
      of the tree committed when it began. */
  lemma ReaderSeesTree(models: seq<Model>, ops: seq<Op>, answers: seq<Option<Data>>, a: nat, b: nat,
                       t: Tree, view: View, p: PageId)
    requires SameRun(models, ops, answers) && a < b < |ops| && ops[a] == BeginRead && !models[a].lost
    requires var i := |models[a].readers|; (forall k :: a < k < b ==> Keeps(ops[k], i)) && ops[b] == Read(i, p)
    requires TreeTransactions.HeldTree(models[a].committed, t, view) && p in Ids(t)
    ensures answers[b].Some? && TreeBytes.Load(p, answers[b].value, view[p].NodePage?) == Some(view[p])
  {
    hide Keeps, TreeBytes.Held, TreeBytes.Load, TreeBytes.Readable, Stored, Ids, Allows, Alike;
    SnapshotIsolation(models, ops, answers, a, b);
    TreeTransactions.HeldAlike(p, models[a].committed[p], answers[b].value, view[p]);
    TreeBytes.LoadBack(p, answers[b].value, view[p]);
  }
}
