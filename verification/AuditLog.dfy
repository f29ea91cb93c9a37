/** The append-only audit log anchored in a Merkle tree, and its line-by-line file. */
module AuditLogs {
  import opened Models
  import opened Merkle

  /** What a record says, apart from where it is anchored. */
  datatype Entry = Entry(recordId: string, timestamp: real, kind: string, actor: string, payload: string)

  /** The canonical text of an entry is a parameter, as the hash is. */
  type Canonical = Entry -> string

  datatype AuditRecord = AuditRecord(entry: Entry, merkleIndex: Option<int>, merkleRoot: Option<Digest>)

  /** A line of the file: what was written for a record, or nothing but white space. */
  datatype Line = Blank | Written(record: AuditRecord)

  ghost function Texts(canonical: Canonical, entries: seq<Entry>): (texts: seq<string>)
    ensures |texts| == |entries|
    ensures forall i :: 0 <= i < |texts| ==> texts[i] == canonical(entries[i])
  {
    seq(|entries|, i requires 0 <= i < |entries| => canonical(entries[i]))
  }

  /** The records of a log with these entries: record i carries index i and the root of the first i + 1 leaves. */
  ghost function Anchored(h: Hash, canonical: Canonical, entries: seq<Entry>): (records: seq<AuditRecord>)
    ensures |records| == |entries|
    ensures forall i :: 0 <= i < |records| ==>
      records[i] == AuditRecord(entries[i], Some(i), Some(TreeRoot(h, Texts(canonical, entries[..i + 1]))))
  {
    seq(|entries|, i requires 0 <= i < |entries| =>
      AuditRecord(entries[i], Some(i), Some(TreeRoot(h, Texts(canonical, entries[..i + 1])))))
  }

  function Entries(records: seq<AuditRecord>): (entries: seq<Entry>)
    ensures |entries| == |records|
    ensures forall i :: 0 <= i < |records| ==> entries[i] == records[i].entry
  {
    seq(|records|, i requires 0 <= i < |records| => records[i].entry)
  }

  /** The entries a file holds, blank lines skipped. */
  ghost function LineEntries(lines: seq<Line>): seq<Entry> {
    if lines == [] then []
    else
      var before := LineEntries(lines[..|lines| - 1]);
      var last := lines[|lines| - 1];
      if last.Blank? then before else before + [last.record.entry]
  }

  lemma LineEntriesOneMore(lines: seq<Line>, line: Line)
    ensures LineEntries(lines + [line])
         == LineEntries(lines) + (if line.Blank? then [] else [line.record.entry])
  {
    assert (lines + [line])[..|lines|] == lines;
  }

  lemma LineEntriesStep(lines: seq<Line>, k: nat)
    requires k < |lines|
    ensures LineEntries(lines[..k + 1])
         == LineEntries(lines[..k]) + (if lines[k].Blank? then [] else [lines[k].record.entry])
  {
    assert lines[..k + 1] == lines[..k] + [lines[k]];
    LineEntriesOneMore(lines[..k], lines[k]);
  }

  /** One more entry leaves the records before it as they were. */
  lemma AnchoredGrows(h: Hash, canonical: Canonical, entries: seq<Entry>, more: Entry)
    ensures Anchored(h, canonical, entries + [more])
         == Anchored(h, canonical, entries)
          + [AuditRecord(more, Some(|entries|), Some(TreeRoot(h, Texts(canonical, entries + [more]))))]
  {
    var longer := entries + [more];
    assert longer[..|longer|] == longer;
    forall i | 0 <= i < |entries| ensures Anchored(h, canonical, longer)[i] == Anchored(h, canonical, entries)[i] {
      assert longer[..i + 1] == entries[..i + 1];
    }
  }

  lemma TextsGrow(canonical: Canonical, entries: seq<Entry>, more: Entry)
    ensures Texts(canonical, entries + [more]) == Texts(canonical, entries) + [canonical(more)]
  {
  }

  // -------------------------------------------------------- what the log proves

  /** The check made for a record that claims place i among these entries. */
  ghost predicate Included(h: Hash, canonical: Canonical, entries: seq<Entry>, entry: Entry, i: nat)
    requires i < |entries|
  {
    var texts := Texts(canonical, entries);
    Climb(h, h(canonical(entry)), Proof(h, Digests(h, texts), i)) == TreeRoot(h, texts)
  }

  /**
   * However many entries came later, a record taken from an earlier state of the log still verifies
   * under the current root, and the log still holds that very record.
   */
  lemma EarlierRecordsVerify(h: Hash, canonical: Canonical, entries: seq<Entry>, later: seq<Entry>, i: nat)
    requires i < |entries|
    ensures Included(h, canonical, entries + later, entries[i], i)
    ensures Anchored(h, canonical, entries + later)[i] == Anchored(h, canonical, entries)[i]
  {
    var texts := Texts(canonical, entries + later);
    EveryLeafProves(h, texts, i);
    assert (entries + later)[..i + 1] == entries[..i + 1];
  }

  /** A record that verifies at place i says what the log holds there, or shows a collision. */
  lemma VerifiedIsStored(h: Hash, canonical: Canonical, entries: seq<Entry>, entry: Entry, i: nat)
    returns (x: string, y: string)
    requires forall e, f :: canonical(e) == canonical(f) ==> e == f
    requires i < |entries| && Included(h, canonical, entries, entry, i)
    ensures entry == entries[i] || Collision(h, x, y)
  {
    var texts := Texts(canonical, entries);
    x, y := AcceptedProofBinds(h, texts, i, canonical(entry), Proof(h, Digests(h, texts), i));
  }

  /** Two histories of equal length that end in the same root are the same history, or show a collision. */
  lemma SameRootSameHistory(h: Hash, canonical: Canonical, a: seq<Entry>, b: seq<Entry>)
    returns (x: string, y: string)
    requires forall e, f :: canonical(e) == canonical(f) ==> e == f
    requires |a| == |b| && a != []
    requires Anchored(h, canonical, a)[|a| - 1].merkleRoot == Anchored(h, canonical, b)[|b| - 1].merkleRoot
    ensures a == b || Collision(h, x, y)
  {
    assert a[..|a|] == a && b[..|b|] == b;
    x, y := TreeRootBinds(h, Texts(canonical, a), Texts(canonical, b));
    if !Collision(h, x, y) {
      forall i | 0 <= i < |a| ensures a[i] == b[i] {
        assert Texts(canonical, a)[i] == Texts(canonical, b)[i];
      }
    }
  }

  // ------------------------------------------------------------------- the log

  class AuditLog {
    const hash: Hash
    const canonical: Canonical
    /** Whether the log has a path to write to. */
    const persistent: bool
    const tree: MerkleTree
    var records: seq<AuditRecord>
    /** The lines of the file at the path. */
    var lines: seq<Line>

    ghost predicate Valid() reads this, tree {
      && tree.Valid() && tree.hash == hash
      && tree.Payloads() == Texts(canonical, Entries(records))
      && records == Anchored(hash, canonical, Entries(records))
      && (persistent ==> LineEntries(lines) == Entries(records))
    }

    /** Opens a log; a log with a path reads the lines that are already there. */
    constructor (hash: Hash, canonical: Canonical, path: Option<seq<Line>>)
      ensures Valid() && fresh(tree)
      ensures this.hash == hash && this.canonical == canonical && persistent == path.Some?
      ensures records == Anchored(hash, canonical, if path.Some? then LineEntries(path.value) else [])
      ensures path.Some? ==> lines == path.value
    {
      this.hash := hash;
      this.canonical := canonical;
      this.persistent := path.Some?;
      this.lines := if path.Some? then path.value else [];
      this.records := [];
      this.tree := new MerkleTree(hash);
      new;
      if path.Some? { Load(); }
    }

    method Load()
      requires tree.Valid() && tree.hash == hash && tree.Payloads() == [] && records == []
      modifies this`records, tree
      ensures Valid() && records == Anchored(hash, canonical, LineEntries(lines))
    {
      for k := 0 to |lines|
        invariant tree.Valid() && tree.hash == hash
        invariant Entries(records) == LineEntries(lines[..k])
        invariant tree.Payloads() == Texts(canonical, Entries(records))
        invariant records == Anchored(hash, canonical, Entries(records))
      {
        LineEntriesStep(lines, k);
        if lines[k].Written? { var record := Anchor(lines[k].record.entry); }
      }
      assert lines[..|lines|] == lines;
    }

    /** The step shared by loading and appending: the entry becomes the next leaf and the next record. */
    method Anchor(entry: Entry) returns (record: AuditRecord)
      requires tree.Valid() && tree.hash == hash
      requires tree.Payloads() == Texts(canonical, Entries(records))
      requires records == Anchored(hash, canonical, Entries(records))
      modifies this`records, tree
      ensures tree.Valid() && tree.hash == hash
      ensures records == old(records) + [record] && record.entry == entry
      ensures Entries(records) == old(Entries(records)) + [entry]
      ensures tree.Payloads() == Texts(canonical, Entries(records))
      ensures records == Anchored(hash, canonical, Entries(records))
    {
      ghost var entries := Entries(records);
      var node := tree.Append(canonical(entry));
      var root := tree.RootHash();
      record := AuditRecord(entry, Some(|records|), Some(root));
      TextsGrow(canonical, entries, entry);
      AnchoredGrows(hash, canonical, entries, entry);
      records := records + [record];
      assert Entries(records) == entries + [entry];
    }

    /** Appends an entry; its id and time stamp are chosen outside. */
    method Append(entry: Entry) returns (record: AuditRecord)
      requires Valid()
      modifies this`records, this`lines, tree
      ensures Valid()
      ensures records == old(records) + [record] && record.entry == entry
      ensures lines == if persistent then old(lines) + [Written(record)] else old(lines)
    {
      record := Anchor(entry);
      if persistent {
        LineEntriesOneMore(lines, Written(record));
        lines := lines + [Written(record)];
      }
    }

    method ProofFor(record: AuditRecord) returns (r: Result<seq<Sibling>>)
      requires Valid() && record.merkleIndex.Some?
      ensures r.Ok? <==> 0 <= record.merkleIndex.value < |records|
      ensures r.Ok? ==>
        r.value == Proof(hash, Digests(hash, Texts(canonical, Entries(records))), record.merkleIndex.value)
    {
      r := tree.ProofFor(record.merkleIndex.value);
    }

    /** Checks a record against the current root; an index the log does not have raises an error. */
    method Verify(record: AuditRecord) returns (r: Result<bool>)
      requires Valid()
      modifies tree`cachedRoot
      ensures Valid()
      ensures record.merkleIndex.None? ==> r == Ok(false)
      ensures record.merkleIndex.Some? ==> (r.Ok? <==> 0 <= record.merkleIndex.value < |records|)
      ensures record.merkleIndex.Some? && r.Ok? ==>
        (r.value <==> Included(hash, canonical, Entries(records), record.entry, record.merkleIndex.value))
      ensures record in records ==> r == Ok(true)
    {
      if record.merkleIndex.None? { return Ok(false); }
      var proof := ProofFor(record);
      if proof.IndexError? { return IndexError; }
      var root := tree.RootHash();
      var ok := MerkleTree.Verify(hash, canonical(record.entry), proof.value, root);
      if record in records { OwnRecordIncluded(record); }
      return Ok(ok);
    }

    lemma OwnRecordIncluded(record: AuditRecord)
      requires Valid() && record in records
      ensures record.merkleIndex.Some? && 0 <= record.merkleIndex.value < |records|
      ensures Included(hash, canonical, Entries(records), record.entry, record.merkleIndex.value)
    {
      var i :| 0 <= i < |records| && records[i] == record;
      EarlierRecordsVerify(hash, canonical, Entries(records), [], i);
      assert Entries(records) + [] == Entries(records);
    }

    /** Opening the file of a log again gives the same records, with the same indices and roots. */
    method Reopened() returns (again: AuditLog)
      requires Valid() && persistent
      ensures fresh(again) && again.Valid() && again.records == records
    {
      again := new AuditLog(hash, canonical, Some(lines));
    }
  }
}
