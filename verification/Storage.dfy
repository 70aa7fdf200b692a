/** The credential store: a list, two indexes, and a file that is replaced atomically. */
module Storage {
  import opened Bytes
  import opened Credentials
  import opened Disk

  /** In every state from `first` on the file is what it was, or the complete new list. */
  ghost predicate OldOrNew(states: seq<Files>, first: nat, path: string, before: Option<Content>, list: seq<Credential>) {
    forall i :: first <= i < |states| ==>
      ContentAt(states[i], path) == before || ContentAt(states[i], path) == Some(Whole(list))
  }

  /** In every state from `first` on all files but the temporary one are what they were. */
  ghost predicate OnlyTempChanges(states: seq<Files>, first: nat, tmpPath: string, files: Files) {
    forall i :: first <= i < |states| ==> tmpPath in states[i] && states[i] == files[tmpPath := states[i][tmpPath]]
  }

  // ---------------------------------------------------------------- the store as a value

  /** The list in memory and what is at the path of the credential file. */
  datatype Store = Store(list: seq<Credential>, file: Option<Content>)

  /** An operation, and whether every step of its disk write works. */
  datatype Op = SaveOp(cred: Credential, persists: bool) | DeleteOp(id: Blob, persists: bool)

  /** Only an operation that changes something writes the file. */
  predicate Writes(s: Store, op: Op) {
    op.persists && (op.DeleteOp? ==> LastWithId(s.list, op.id).Some?)
  }

  /** What the operation tells its caller. */
  predicate ReportsSuccess(s: Store, op: Op) {
    op.persists || (op.DeleteOp? && LastWithId(s.list, op.id).None?)
  }

  function Apply(s: Store, op: Op): Store {
    var list := if op.SaveOp? then Put(s.list, op.cred) else Without(s.list, op.id);
    Store(list, if Writes(s, op) then Some(Whole(list)) else s.file)
  }

  function Run(s: Store, ops: seq<Op>): Store {
    if ops == [] then s else Apply(Run(s, ops[..|ops| - 1]), ops[|ops| - 1])
  }

  // ---------------------------------------------------------------- what a stop leaves behind

  /** The file is what it was at the start, or the complete list as it was after the first so many operations. */
  ghost predicate HoldsPrefix(files: Files, path: string, start: Store, ops: seq<Op>) {
    || ContentAt(files, path) == start.file
    || exists k :: 0 <= k <= |ops| && ContentAt(files, path) == Some(Whole(Run(start, ops[..k]).list))
  }

  ghost predicate AllHoldPrefixes(states: seq<Files>, first: nat, path: string, start: Store, ops: seq<Op>) {
    forall i :: first <= i < |states| ==> HoldsPrefix(states[i], path, start, ops)
  }

  lemma HoldsPrefixGrows(files: Files, path: string, start: Store, ops: seq<Op>, op: Op)
    requires HoldsPrefix(files, path, start, ops)
    ensures HoldsPrefix(files, path, start, ops + [op])
  {
    if ContentAt(files, path) != start.file {
      var k :| 0 <= k <= |ops| && ContentAt(files, path) == Some(Whole(Run(start, ops[..k]).list));
      assert (ops + [op])[..k] == ops[..k];
    }
  }

  /** One more operation, all of whose intermediate states have the old file or the complete new list, keeps the
      promise about every state there has been. */
  lemma OperationHoldsPrefixes(states: seq<Files>, states': seq<Files>, first: nat, path: string, start: Store,
                               ops: seq<Op>, op: Op)
    requires first < |states| && states <= states' && AllHoldPrefixes(states, first, path, start, ops)
    requires OldOrNew(states', |states|, path, ContentAt(states[|states| - 1], path), Apply(Run(start, ops), op).list)
    ensures AllHoldPrefixes(states', first, path, start, ops + [op])
    ensures Run(start, ops + [op]) == Apply(Run(start, ops), op)
  {
    var ops' := ops + [op];
    assert ops'[..|ops|] == ops && ops'[..|ops'|] == ops';
    forall i | first <= i < |states'|
      ensures HoldsPrefix(states'[i], path, start, ops')
    {
      if i < |states| {
        HoldsPrefixGrows(states[i], path, start, ops, op);
      } else if ContentAt(states'[i], path) == ContentAt(states[|states| - 1], path) {
        HoldsPrefixGrows(states[|states| - 1], path, start, ops, op);
      }
    }
  }

  // ---------------------------------------------------------------- the store as an object

  /** For each relying party of the list, its credentials in order. */
  ghost predicate IndexesRp(index: map<string, seq<Credential>>, cs: seq<Credential>) {
    && (forall r :: r in index <==> OfRp(cs, r) != [])
    && (forall r <- index :: index[r] == OfRp(cs, r))
  }

  /** For each identifier of the list, the last credential with it. */
  ghost predicate IndexesId(index: map<Blob, Credential>, cs: seq<Credential>) {
    && (forall id :: id in index <==> LastWithId(cs, id).Some?)
    && (forall id <- index :: Some(index[id]) == LastWithId(cs, id))
  }

  lemma IndexRpGrows(index: map<string, seq<Credential>>, cs: seq<Credential>, c: Credential)
    requires IndexesRp(index, cs)
    ensures IndexesRp(index[c.rpId := (if c.rpId in index then index[c.rpId] else []) + [c]], cs + [c])
  {
    assert (cs + [c])[..|cs|] == cs;
    assert forall r :: OfRp(cs + [c], r) == OfRp(cs, r) + if c.rpId == r then [c] else [];
  }

  lemma IndexIdGrows(index: map<Blob, Credential>, cs: seq<Credential>, c: Credential)
    requires IndexesId(index, cs)
    ensures IndexesId(index[c.credentialId := c], cs + [c])
  {
    assert (cs + [c])[..|cs|] == cs;
    assert forall id :: LastWithId(cs + [c], id) == if c.credentialId == id then Some(c) else LastWithId(cs, id);
  }

  /** The list in a readable file. */
  function Loaded(file: Option<Content>): seq<Credential> {
    match file
    case Some(Whole(list)) => list
    case _ => []
  }

  /** Which of the steps of opening a store succeed. */
  datatype OpenOutcomes = OpenOutcomes(mkdir: bool, chmodDir: bool, chmodFile: bool, read: bool)

  class CredentialStorage {
    const dir: Directory
    const filePath: string
    var credentials: seq<Credential>
    var byRPID: map<string, seq<Credential>>
    var byCredentialID: map<Blob, Credential>

    /** The store as it was opened, the state of the directory at that time, and the operations since. */
    ghost const start: Store
    ghost const born: nat
    ghost var performed: seq<Op>

    /** The indexes say what the list says. */
    ghost predicate Indexed()
      reads `credentials, `byRPID, `byCredentialID
    {
      IndexesRp(byRPID, credentials) && IndexesId(byCredentialID, credentials)
    }

    /** The store is where its operations have led it, and a stop in any state of the directory since it was opened
        would have left the original file or the complete list after some of the operations. */
    ghost predicate Traced()
      reads this, dir
    {
      && born < |dir.history| && State() == Run(start, performed)
      && AllHoldPrefixes(dir.history, born, filePath, start, performed)
    }

    ghost predicate Valid()
      reads this, dir
    {
      dir.Valid() && Indexed() && Traced()
    }

    function State(): Store
      reads this, dir
    {
      Store(credentials, ContentAt(dir.files, filePath))
    }

    /** Loads a complete credential file that can be read; any other is ignored. */
    constructor (dir: Directory, filePath: string, read: bool)
      requires dir.Valid()
      ensures Valid() && this.dir == dir && this.filePath == filePath
      ensures credentials == if read then Loaded(ContentAt(dir.files, filePath)) else []
      ensures start == State() && born == |dir.history| - 1 && performed == []
    {
      this.dir, this.filePath := dir, filePath;
      credentials, byRPID, byCredentialID := [], map[], map[];
      start := Store(if read then Loaded(ContentAt(dir.files, filePath)) else [], ContentAt(dir.files, filePath));
      born := |dir.history| - 1;
      performed := [];
      new;
      if read && filePath in dir.files && dir.files[filePath].Whole? {
        credentials := dir.files[filePath].list;
        RebuildIndexes();
      }
    }

    /** Opens the store. It fails when the directory or the file cannot be made private, not when the file cannot be
        read. */
    static method Open(dir: Directory, filePath: string, o: OpenOutcomes) returns (cs: CredentialStorage?)
      requires dir.Valid()
      ensures cs == null <==> !o.mkdir || !o.chmodDir || (filePath in dir.files && !o.chmodFile)
      ensures cs != null ==>
                && fresh(cs) && cs.Valid() && cs.dir == dir && cs.filePath == filePath && cs.performed == []
                && cs.credentials == if o.read then Loaded(ContentAt(dir.files, filePath)) else []
    {
      if !o.mkdir {
        return null;
      }
      if !o.chmodDir {
        return null;
      }
      if filePath in dir.files {
        if !o.chmodFile {
          return null;
        }
      }
      cs := new CredentialStorage(dir, filePath, o.read);
    }

    method RebuildIndexes()
      modifies `byRPID, `byCredentialID
      ensures Indexed()
    {
      byRPID, byCredentialID := map[], map[];
      var i := 0;
      assert credentials[..0] == [];
      NoIndexes();
      hide IndexesRp, IndexesId;
      while i < |credentials|
        invariant 0 <= i <= |credentials|
        invariant IndexesRp(byRPID, credentials[..i]) && IndexesId(byCredentialID, credentials[..i])
      {
        var cred := credentials[i];
        assert credentials[..i + 1] == credentials[..i] + [cred];
        IndexRpGrows(byRPID, credentials[..i], cred);
        IndexIdGrows(byCredentialID, credentials[..i], cred);
        byRPID := byRPID[cred.rpId := (if cred.rpId in byRPID then byRPID[cred.rpId] else []) + [cred]];
        byCredentialID := byCredentialID[cred.credentialId := cred];
        i := i + 1;
      }
      assert credentials[..i] == credentials;
    }

    lemma NoIndexes()
      ensures IndexesRp(map[], []) && IndexesId(map[], [])
    {
    }

    /** Fills the temporary file; nothing else changes in the directory. */
    method FillTemp(tmpPath: string, o: Outcomes) returns (ok: bool)
      requires dir.Valid() && tmpPath in dir.files
      modifies dir
      ensures dir.Valid() && ok == (o.chmod && o.write && o.sync && o.close)
      ensures tmpPath in dir.files && dir.files == old(dir.files)[tmpPath := dir.files[tmpPath]]
      ensures ok ==> dir.files[tmpPath] == Whole(credentials)
      ensures old(dir.history) <= dir.history
      ensures OnlyTempChanges(dir.history, |old(dir.history)|, tmpPath, old(dir.files))
    {
      ok := o.chmod;
      if ok {
        ok := dir.Write(tmpPath, credentials, o.write);
      }
      if ok {
        ok := o.sync;
      }
      if ok {
        ok := o.close;
      }
    }

    /** Writes the list to a temporary file and renames it over the credential file; on any failure the temporary
        file is removed and the credential file is untouched. */
    method Persist(tmpPath: string, o: Outcomes) returns (ok: bool)
      requires dir.Valid() && tmpPath != filePath
      modifies dir
      ensures dir.Valid() && ok == (o.Persists() && tmpPath !in old(dir.files))
      ensures ok ==> o.marshal && o.create && o.chmod && o.write && o.sync && o.close && o.rename
      ensures ContentAt(dir.files, filePath) ==
              if ok then Some(Whole(credentials)) else old(ContentAt(dir.files, filePath))
      ensures o.remove || ok ==> dir.files.Keys - {filePath} == old(dir.files.Keys) - {filePath}
      ensures forall p :: p != filePath && p != tmpPath ==> ContentAt(dir.files, p) == old(ContentAt(dir.files, p))
      ensures old(dir.history) <= dir.history
      ensures OldOrNew(dir.history, |old(dir.history)|, filePath, old(ContentAt(dir.files, filePath)), credentials)
    {
      if !o.marshal {
        return false;
      }
      ok := dir.CreateTemp(tmpPath, o.create);
      if !ok {
        return;
      }
      ghost var history := dir.history;
      ok := FillTemp(tmpPath, o);
      TempIsAside(dir.history, |history|, tmpPath, history[|history| - 1], filePath);
      hide OnlyTempChanges;
      if ok {
        ok := dir.Rename(tmpPath, filePath, o.rename);
      }
      if !ok {
        dir.Remove(tmpPath, o.remove);
      }
    }

    lemma TempIsAside(states: seq<Files>, first: nat, tmpPath: string, files: Files, path: string)
      requires OnlyTempChanges(states, first, tmpPath, files) && path != tmpPath
      ensures forall i :: first <= i < |states| ==> ContentAt(states[i], path) == ContentAt(files, path)
    {
    }

    /** Replaces the credential of the same user of the same relying party, or appends. */
    method ReplaceOrAppend(cred: Credential)
      modifies `credentials
      ensures credentials == Put(old(credentials), cred)
    {
      var found := false;
      var i := 0;
      while i < |credentials|
        invariant 0 <= i <= |credentials| && !found
        invariant credentials == old(credentials)
        invariant forall j :: 0 <= j < i ==> credentials[j].Key() != cred.Key()
        modifies `credentials
      {
        var existing := credentials[i];
        if existing.rpId == cred.rpId && existing.userId == cred.userId {
          assert FirstWithKey(credentials, cred.Key()) == i;
          credentials := credentials[i := cred];
          found := true;
          break;
        }
        i := i + 1;
      }
      if !found {
        assert FirstWithKey(credentials, cred.Key()) == |credentials|;
        credentials := credentials + [cred];
      }
    }

    /** Stores a credential; the list and its indexes change even when the disk write fails. */
    method Save(cred: Credential, tmpPath: string, o: Outcomes) returns (ok: bool)
      requires Valid() && tmpPath != filePath
      modifies this, dir
      ensures Valid()
      ensures var op := SaveOp(cred, o.Persists() && tmpPath !in old(dir.files));
              State() == Apply(old(State()), op) && ok == ReportsSuccess(old(State()), op)
              && performed == old(performed) + [op]
      ensures old(dir.history) <= dir.history
      ensures OldOrNew(dir.history, |old(dir.history)|, filePath, old(ContentAt(dir.files, filePath)), credentials)
    {
      hide Put, Indexed, Run, AllHoldPrefixes, OldOrNew, ContentAt;
      ghost var before, op := State(), SaveOp(cred, o.Persists() && tmpPath !in dir.files);
      ReplaceOrAppend(cred);
      ok := Commit(op, before, tmpPath, o);
    }

    /** What follows a change of the list: new indexes and a new file. */
    method Commit(ghost op: Op, ghost before: Store, tmpPath: string, o: Outcomes) returns (ok: bool)
      requires dir.Valid() && tmpPath != filePath && born < |dir.history|
      requires AllHoldPrefixes(dir.history, born, filePath, start, performed) && before == Run(start, performed)
      requires before.file == ContentAt(dir.files, filePath) && credentials == Apply(before, op).list
      requires op.persists == (o.Persists() && tmpPath !in dir.files)
      requires op.DeleteOp? ==> LastWithId(before.list, op.id).Some?
      modifies `byRPID, `byCredentialID, `performed, dir
      ensures Valid() && State() == Apply(before, op) && ok == ReportsSuccess(before, op)
      ensures performed == old(performed) + [op]
      ensures old(dir.history) <= dir.history
      ensures OldOrNew(dir.history, |old(dir.history)|, filePath, before.file, credentials)
    {
      hide Put, Without, LastWithId, Indexed, Run, AllHoldPrefixes, OldOrNew, ContentAt;
      RebuildIndexes();
      ok := Persist(tmpPath, o);
      Record(op, before, old(dir.history));
    }

    /** Enters an operation into the log. */
    ghost method Record(op: Op, before: Store, history: seq<Files>)
      requires dir.Valid() && Indexed() && born < |history| && history <= dir.history
      requires before == Run(start, performed) && State() == Apply(before, op)
      requires ContentAt(history[|history| - 1], filePath) == before.file
      requires AllHoldPrefixes(history, born, filePath, start, performed)
      requires OldOrNew(dir.history, |history|, filePath, before.file, credentials)
      modifies `performed
      ensures Valid() && performed == old(performed) + [op]
    {
      hide OldOrNew, AllHoldPrefixes, Indexed, Apply, Run;
      OperationHoldsPrefixes(history, dir.history, born, filePath, start, performed, op);
      performed := performed + [op];
    }

    method GetByRPID(rpId: string) returns (result: seq<Credential>)
      requires Valid()
      ensures result == OfRp(credentials, rpId)
    {
      result := if rpId in byRPID then byRPID[rpId] else [];
    }

    method GetByCredentialID(id: Blob) returns (result: Option<Credential>)
      requires Valid()
      ensures result == LastWithId(credentials, id)
    {
      result := if id in byCredentialID then Some(byCredentialID[id]) else None;
    }

    /** Removes every credential with the given identifier. When there is none, nothing is written at all. */
    method Delete(id: Blob, tmpPath: string, o: Outcomes) returns (ok: bool)
      requires Valid() && tmpPath != filePath
      modifies this, dir
      ensures Valid()
      ensures var op := DeleteOp(id, o.Persists() && tmpPath !in old(dir.files));
              State() == Apply(old(State()), op) && ok == ReportsSuccess(old(State()), op)
              && performed == old(performed) + [op]
      ensures LastWithId(old(credentials), id).None? ==> dir.history == old(dir.history)
      ensures old(dir.history) <= dir.history
      ensures OldOrNew(dir.history, |old(dir.history)|, filePath, old(ContentAt(dir.files, filePath)), credentials)
    {
      hide Without, Run, AllHoldPrefixes, OldOrNew, ContentAt;
      var known := HasCredential(id);
      hide Indexed;
      if !known {
        NothingWritten(dir.history, ContentAt(dir.files, filePath));
        Record(DeleteOp(id, o.Persists() && tmpPath !in dir.files), State(), dir.history);
        return true;
      }
      ghost var before, op := State(), DeleteOp(id, o.Persists() && tmpPath !in dir.files);
      DropCredential(id);
      ok := Commit(op, before, tmpPath, o);
    }

    method HasCredential(id: Blob) returns (known: bool)
      requires Indexed()
      ensures known <==> LastWithId(credentials, id).Some?
      ensures !known ==> Without(credentials, id) == credentials
    {
      known := id in byCredentialID;
      if !known {
        WithoutAbsent(credentials, id);
      }
    }

    /** Copies the other credentials into a new list. */
    method DropCredential(id: Blob)
      modifies `credentials
      ensures credentials == Without(old(credentials), id)
    {
      var newCreds := [];
      var i := 0;
      while i < |credentials|
        invariant 0 <= i <= |credentials|
        invariant newCreds == Without(credentials[..i], id)
      {
        var cred := credentials[i];
        assert credentials[..i + 1][..i] == credentials[..i];
        if cred.credentialId != id {
          newCreds := newCreds + [cred];
        }
        i := i + 1;
      }
      assert credentials[..i] == credentials;
      credentials := newCreds;
    }

    lemma NothingWritten(history: seq<Files>, content: Option<Content>)
      ensures OldOrNew(history, |history|, filePath, content, credentials)
    {
    }
  }
}
