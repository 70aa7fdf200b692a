/** The credential store over whole runs of operations. */
module StorageRuns {
  import opened Bytes
  import opened Credentials
  import opened Disk
  import opened Storage

  function MapApply(m: OrderedMap, op: Op): OrderedMap {
    if op.SaveOp? then MapPut(m, op.cred) else MapRemove(m, op.id)
  }

  function MapRun(m: OrderedMap, ops: seq<Op>): OrderedMap {
    if ops == [] then m else MapApply(MapRun(m, ops[..|ops| - 1]), ops[|ops| - 1])
  }

  /** The list enumerates the insertion-ordered map over every run, whatever the disk does. */
  lemma {:induction false} RunRefines(s: Store, m: OrderedMap, ops: seq<Op>)
    requires Represents(s.list, m)
    ensures Represents(Run(s, ops).list, MapRun(m, ops))
  {
    hide Represents;
    if ops != [] {
      var front, op := ops[..|ops| - 1], ops[|ops| - 1];
      RunRefines(s, m, front);
      if op.SaveOp? {
        PutRefines(Run(s, front).list, MapRun(m, front), op.cred);
      } else {
        RemoveRefines(Run(s, front).list, MapRun(m, front), op.id);
      }
    }
  }

  /** No (relying party, user) pair is ever listed twice. */
  lemma NoKeyRepeats(ops: seq<Op>, i: nat, j: nat)
    requires i < j < |Run(Store([], None), ops).list|
    ensures Run(Store([], None), ops).list[i].Key() != Run(Store([], None), ops).list[j].Key()
  {
    RunRefines(Store([], None), EMPTY, ops);
    RepresentsAt(Run(Store([], None), ops).list, MapRun(EMPTY, ops), i);
    RepresentsAt(Run(Store([], None), ops).list, MapRun(EMPTY, ops), j);
  }

  // ---------------------------------------------------------------- the file

  /** How many operations there were up to and including the last one that wrote the file; none if none did. */
  function LastWrite(s: Store, ops: seq<Op>): (n: nat)
    ensures n <= |ops|
  {
    if ops == [] then 0
    else if Writes(Run(s, ops[..|ops| - 1]), ops[|ops| - 1]) then |ops|
    else LastWrite(s, ops[..|ops| - 1])
  }

  /** After any run the file holds the complete list as it was after the last operation that wrote it. */
  lemma {:induction false} FileIsLastWritten(s: Store, ops: seq<Op>)
    ensures var n := LastWrite(s, ops);
            Run(s, ops).file == if n == 0 then s.file else Some(Whole(Run(s, ops[..n]).list))
  {
    if ops != [] {
      var front := ops[..|ops| - 1];
      if Writes(Run(s, front), ops[|ops| - 1]) {
        assert ops[..|ops|] == ops;
      } else {
        FileIsLastWritten(s, front);
        assert front[..LastWrite(s, front)] == ops[..LastWrite(s, front)];
      }
    }
  }

  /** A reported success means that the file holds the list if and only if the operation was a save, or deleted
      something, or the file held the list already: deleting what is not there writes nothing. */
  lemma SuccessMeansWritten(s: Store, op: Op)
    requires ReportsSuccess(s, op)
    ensures Apply(s, op).file == Some(Whole(Apply(s, op).list)) <==>
            op.SaveOp? || LastWithId(s.list, op.id).Some? || s.file == Some(Whole(s.list))
  {
    if op.DeleteOp? && LastWithId(s.list, op.id).None? {
      WithoutAbsent(s.list, op.id);
    }
  }

  /** After a delete that reported success, a reopened store lacks the credential if and only if the credential was
      in memory before the call or not in the file anyway. */
  lemma SuccessfulDeleteForgets(s: Store, id: Blob, persists: bool)
    requires ReportsSuccess(s, DeleteOp(id, persists))
    ensures LastWithId(Loaded(Apply(s, DeleteOp(id, persists)).file), id).None? <==>
            LastWithId(s.list, id).Some? || LastWithId(Loaded(s.file), id).None?
  {
    WithoutIsClean(s.list, id);
  }

  /** The condition is not idle: a delete whose write fails and whose retry reports success leaves the credential
      in the file. */
  lemma RetriedDeleteIsLost(c: Credential)
    ensures var ops := [SaveOp(c, true), DeleteOp(c.credentialId, false), DeleteOp(c.credentialId, true)];
            && ReportsSuccess(Run(Store([], None), ops[..2]), ops[2])
            && Run(Store([], None), ops).list == []
            && Run(Store([], None), ops).file == Some(Whole([c]))
  {
    var s0 := Store([], None);
    var ops := [SaveOp(c, true), DeleteOp(c.credentialId, false), DeleteOp(c.credentialId, true)];
    OneCredential(c);
    hide Put, Without, LastWithId, Run;
    RunStep(s0, ops, 0);
    RunStep(s0, ops, 1);
    RunStep(s0, ops, 2);
    RunNothing(s0, ops);
    assert ops[..3] == ops;
  }

  lemma RunStep(s: Store, ops: seq<Op>, n: nat)
    requires n < |ops|
    ensures Run(s, ops[..n + 1]) == Apply(Run(s, ops[..n]), ops[n])
  {
    assert ops[..n + 1][..n] == ops[..n];
    hide Apply;
  }

  lemma RunNothing(s: Store, ops: seq<Op>)
    ensures Run(s, ops[..0]) == s
  {
  }

  lemma OneCredential(c: Credential)
    ensures Put([], c) == [c] && Without([c], c.credentialId) == [] && Without([], c.credentialId) == []
    ensures LastWithId([c], c.credentialId) == Some(c) && LastWithId([], c.credentialId) == None
  {
    assert [c][..0] == [];
  }

  /** Operations that report failure leave the file alone. */
  lemma {:induction false} FailuresKeepFile(s: Store, ops: seq<Op>, n: nat)
    requires n <= |ops| && forall k :: n <= k < |ops| ==> !ReportsSuccess(Run(s, ops[..k]), ops[k])
    ensures Run(s, ops).file == Run(s, ops[..n]).file
  {
    if n == |ops| {
      assert ops[..n] == ops;
    } else {
      var front := ops[..|ops| - 1];
      forall k | 0 <= k <= |front|
        ensures front[..k] == ops[..k]
      {
      }
      FailuresKeepFile(s, front, n);
    }
  }

  /** After the last success that a run reported, whatever failed since, the file holds the list as of that success if
      and only if the list had not changed since the last operation that wrote the file. */
  lemma FileHoldsLastSuccess(s: Store, ops: seq<Op>, n: nat)
    requires n < |ops| && ReportsSuccess(Run(s, ops[..n]), ops[n])
    requires forall k :: n < k < |ops| ==> !ReportsSuccess(Run(s, ops[..k]), ops[k])
    ensures var done := ops[..n + 1];
            var w := LastWrite(s, done);
            Run(s, ops).file == Some(Whole(Run(s, done).list)) <==>
            (if w == 0 then s.file == Some(Whole(Run(s, done).list)) else Run(s, done[..w]).list == Run(s, done).list)
  {
    hide Run, ReportsSuccess, LastWrite;
    FailuresKeepFile(s, ops, n + 1);
    FileIsLastWritten(s, ops[..n + 1]);
  }

  /** An idle delete, which names an absent credential, is harmless when the operation before it reported success, or
      when it comes first and the file holds the list. */
  predicate Harmless(s: Store, ops: seq<Op>, k: nat)
    requires k < |ops|
  {
    ops[k].DeleteOp? && LastWithId(Run(s, ops[..k]).list, ops[k].id).None? ==>
      if k == 0 then s.file == Some(Whole(s.list)) else ReportsSuccess(Run(s, ops[..k - 1]), ops[k - 1])
  }

  /** When every idle delete is harmless, each success leaves the file equal to the list. */
  lemma {:induction false} SuccessInStep(s: Store, ops: seq<Op>, n: nat)
    requires n < |ops| && ReportsSuccess(Run(s, ops[..n]), ops[n])
    requires forall k :: 0 <= k <= n ==> Harmless(s, ops, k)
    ensures Run(s, ops[..n + 1]).file == Some(Whole(Run(s, ops[..n + 1]).list))
  {
    hide Put, Without, LastWithId;
    assert ops[..n + 1][..n] == ops[..n];
    var before := Run(s, ops[..n]);
    if ops[n].DeleteOp? && LastWithId(before.list, ops[n].id).None? {
      WithoutAbsent(before.list, ops[n].id);
      assert Harmless(s, ops, n);
      if n > 0 {
        SuccessInStep(s, ops, n - 1);
      }
    }
  }

  /** Then the file always equals the list of the last operation that reported success. */
  lemma InStepWithHarmlessDeletes(s: Store, ops: seq<Op>, n: nat)
    requires n < |ops| && ReportsSuccess(Run(s, ops[..n]), ops[n])
    requires forall k :: 0 <= k <= n ==> Harmless(s, ops, k)
    requires forall k :: n < k < |ops| ==> !ReportsSuccess(Run(s, ops[..k]), ops[k])
    ensures Run(s, ops).file == Some(Whole(Run(s, ops[..n + 1]).list))
  {
    hide Run, ReportsSuccess, Harmless;
    SuccessInStep(s, ops, n);
    FailuresKeepFile(s, ops, n + 1);
  }

  /** A store reopened after any run enumerates the map as it was after the last operation that wrote the file. */
  lemma ReopenedIsLastWritten(ops: seq<Op>)
    ensures var s := Run(Store([], None), ops);
            Represents(Loaded(s.file), MapRun(EMPTY, ops[..LastWrite(Store([], None), ops)]))
  {
    var s0 := Store([], None);
    var n := LastWrite(s0, ops);
    FileIsLastWritten(s0, ops);
    RunRefines(s0, EMPTY, ops[..n]);
    assert ops[..0] == [];
  }

  /** A stop at any point of any run of a store that was opened without a file: what a reopened store loads enumerates
      the map after some of the operations, whatever failed. */
  lemma StopLeavesPrefix(cs: CredentialStorage, i: nat)
    requires cs.Valid() && cs.start == Store([], None) && cs.born <= i < |cs.dir.history|
    ensures exists k :: 0 <= k <= |cs.performed| &&
              Represents(Loaded(ContentAt(cs.dir.history[i], cs.filePath)), MapRun(EMPTY, cs.performed[..k]))
  {
    var ops, content := cs.performed, ContentAt(cs.dir.history[i], cs.filePath);
    assert HoldsPrefix(cs.dir.history[i], cs.filePath, cs.start, ops);
    if content == None {
      assert ops[..0] == [];
      RunRefines(cs.start, EMPTY, ops[..0]);
      assert Represents(Loaded(content), MapRun(EMPTY, ops[..0]));
    } else {
      var k :| 0 <= k <= |ops| && content == Some(Whole(Run(cs.start, ops[..k]).list));
      RunRefines(cs.start, EMPTY, ops[..k]);
      assert Represents(Loaded(content), MapRun(EMPTY, ops[..k]));
    }
  }
}
