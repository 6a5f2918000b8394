/** What a read means: over a set of entries, the newest entry of a user key that is
    visible at a sequence number decides the answer. */
module Reads {
  import opened DbFormat

  ghost predicate Visible(e: Entry, k: UserKey, s: SequenceNumber) {
    e.key.user == k && e.key.sequence <= s
  }

  ghost predicate Newest(es: set<Entry>, k: UserKey, s: SequenceNumber, e: Entry) {
    && e in es
    && Visible(e, k, s)
    && forall f :: f in es && Visible(f, k, s) ==> f.key.sequence <= e.key.sequence
  }

  ghost predicate NoneVisible(es: set<Entry>, k: UserKey, s: SequenceNumber) {
    forall e :: e in es ==> !Visible(e, k, s)
  }

  /** One entry per user key and sequence number. */
  ghost predicate SeqUnique(es: set<Entry>) {
    forall a, b :: a in es && b in es && a.key.user == b.key.user && a.key.sequence == b.key.sequence ==> a == b
  }

  ghost function ValueOf(e: Entry): Option<Value> {
    if e.key.kind.Put? then Some(e.value) else None
  }

  /** The specification of Get at snapshot `s` over the entries `es`. */
  ghost function Read(es: set<Entry>, k: UserKey, s: SequenceNumber): Option<Value> {
    if exists e :: Newest(es, k, s, e) then
      var e :| Newest(es, k, s, e);
      ValueOf(e)
    else
      None
  }

  lemma ReadIsNewest(es: set<Entry>, k: UserKey, s: SequenceNumber, e: Entry)
    requires SeqUnique(es)
    requires Newest(es, k, s, e)
    ensures Read(es, k, s) == ValueOf(e)
  {
    assert forall f :: Newest(es, k, s, f) ==> f == e;
  }

  lemma ReadOfNothing(es: set<Entry>, k: UserKey, s: SequenceNumber)
    requires NoneVisible(es, k, s)
    ensures Read(es, k, s) == None
  {
  }

  /** A visible entry implies a newest one. */
  lemma {:induction false} NewestExists(es: set<Entry>, k: UserKey, s: SequenceNumber) returns (e: Entry)
    requires !NoneVisible(es, k, s)
    ensures Newest(es, k, s, e)
    decreases es
  {
    var c :| c in es && Visible(c, k, s);
    var rest := es - {c};
    assert forall f :: f in es ==> f == c || f in rest;
    if NoneVisible(rest, k, s) {
      e := c;
    } else {
      var d := NewestExists(rest, k, s);
      e := if d.key.sequence <= c.key.sequence then c else d;
    }
  }

  /** What a search of some entries reports: the three states of the Saver that matter. */
  datatype Outcome = Missing | Found(value: Value) | Deleted {
    function ToRead(): Option<Value> {
      if Found? then Some(value) else None
    }
  }

  function OutcomeOf(e: Entry): Outcome {
    if e.key.kind.Put? then Found(e.value) else Deleted
  }

  ghost predicate Answers(es: set<Entry>, k: UserKey, s: SequenceNumber, r: Outcome) {
    if r.Missing? then NoneVisible(es, k, s)
    else exists e :: Newest(es, k, s, e) && OutcomeOf(e) == r
  }

  lemma AnswersRead(es: set<Entry>, k: UserKey, s: SequenceNumber, r: Outcome)
    requires SeqUnique(es)
    requires Answers(es, k, s, r)
    ensures Read(es, k, s) == r.ToRead()
  {
    if !r.Missing? {
      var e :| Newest(es, k, s, e) && OutcomeOf(e) == r;
      ReadIsNewest(es, k, s, e);
    }
  }

  /** Every entry of `upper` is newer than every entry of `lower` with its user key. */
  ghost predicate Above(upper: set<Entry>, lower: set<Entry>) {
    forall a, b :: a in upper && b in lower && a.key.user == b.key.user ==> a.key.sequence > b.key.sequence
  }

  /** A search may stop in the first source that has a visible entry of the key. */
  lemma FirstHit(before: set<Entry>, source: set<Entry>, behind: set<Entry>, k: UserKey, s: SequenceNumber, r: Outcome)
    requires NoneVisible(before, k, s)
    requires !r.Missing? && Answers(source, k, s, r)
    requires Above(source, behind)
    ensures Answers(before + source + behind, k, s, r)
  {
    var e :| Newest(source, k, s, e) && OutcomeOf(e) == r;
    assert Newest(before + source + behind, k, s, e);
  }

  /** In a sorted table, the entry a lookup key seeks to is the newest visible one, if it has the user key. */
  lemma SeekFindsNewest(es: seq<Entry>, k: UserKey, s: SequenceNumber)
    requires Sorted(es)
    ensures var n := LowerBound(es, LookupKey(k, s));
            if n < |es| && es[n].key.user == k then Newest(ToSet(es), k, s, es[n])
            else NoneVisible(ToSet(es), k, s)
  {
    var target := LookupKey(k, s);
    var n := LowerBound(es, target);
    LowerBoundSplits(es, target);
    forall f | f in ToSet(es) && Visible(f, k, s)
      ensures n < |es| && es[n].key.user == k && f.key.sequence <= es[n].key.sequence
    {
      var i :| 0 <= i < |es| && es[i] == f;
      assert !Less(f.key, target);
      assert i >= n;
      if i != n {
        assert Less(es[n].key, es[i].key);
      }
    }
  }
}
