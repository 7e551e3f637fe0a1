/**
 * The two halves of the contact-mailing pipeline together: everything the
 * producer enqueues is handled by the consumer without a crash.
 */
module Pipeline {
  import opened Wrappers
  import opened ObjectIds
  import opened Contacts
  import opened Producer
  import opened Consumer

  /** Positions of the appended contacts, in the form the consumer's delivery lemma takes. */
  lemma AppendedPositions(before: seq<Contact>, created: seq<Contact>) returns (idx: seq<nat>)
    ensures |idx| == |created|
    ensures forall k :: 0 <= k < |idx| ==> idx[k] == |before| + k
    ensures NamesDistinct(before + created, Bodies(created), idx)
  {
    idx := seq(|created|, k requires 0 <= k < |created| => |before| + k);
    forall k | 0 <= k < |idx|
      ensures ParseObjectId(Bodies(created)[k]) == Some((before + created)[idx[k]].id)
    {
      ParseIdString(created[k].id);
    }
  }

  /**
   * Draining the messages for contacts appended to a valid table emails each
   * of them once, in order, as it was stored.
   */
  lemma ConsumeAppendedEmails(before: seq<Contact>, created: seq<Contact>)
    requires TableValid(before + created)
    ensures var r := ConsumeAll(before + created, Bodies(created));
      !r.crashed && r.emailed == created
  {
    var t := before + created;
    var idx := AppendedPositions(before, created);
    ConsumeAllEmailsEach(t, Bodies(created), idx);
    var r := ConsumeAll(t, Bodies(created));
    assert |r.emailed| == |created|;
    forall k | 0 <= k < |created|
      ensures r.emailed[k] == created[k]
    {
      assert idx[k] == |before| + k;
      assert t[|before| + k] == created[k];
    }
  }

  /** Re-indexes the consumer's per-message marks by position among the appended contacts. */
  lemma MarksByPosition(before: seq<Contact>, created: seq<Contact>, idx: seq<nat>, table: seq<Contact>)
    requires |idx| == |created| && |table| == |before| + |created|
    requires forall k :: 0 <= k < |idx| ==> idx[k] == |before| + k
    requires forall k :: 0 <= k < |idx| ==> table[idx[k]] == AsSent((before + created)[idx[k]])
    ensures forall k :: 0 <= k < |created| ==> table[|before| + k] == AsSent(created[k])
  {
    forall k | 0 <= k < |created|
      ensures table[|before| + k] == AsSent(created[k])
    {
      assert idx[k] == |before| + k;
      assert (before + created)[|before| + k] == created[k];
    }
  }

  /** ... and leaves each of them as it was stored, marked sent. */
  lemma ConsumeAppendedMarks(before: seq<Contact>, created: seq<Contact>)
    requires TableValid(before + created)
    ensures var r := ConsumeAll(before + created, Bodies(created));
      forall k :: 0 <= k < |created| ==> r.table[|before| + k] == AsSent(created[k])
  {
    var t := before + created;
    var idx := AppendedPositions(before, created);
    ConsumeAllMarksEach(t, Bodies(created), idx);
    MarksByPosition(before, created, idx, ConsumeAll(t, Bodies(created)).table);
  }

  /** The messages for appended contacts never name a contact that was there before. */
  lemma ConsumeAppendedLeavesBefore(before: seq<Contact>, created: seq<Contact>, i: nat)
    requires TableValid(before + created) && i < |before|
    ensures ConsumeAll(before + created, Bodies(created)).table[i] == before[i]
  {
    var t := before + created;
    var bodies := Bodies(created);
    forall k | 0 <= k < |bodies|
      ensures ParseObjectId(bodies[k]) != Some(t[i].id)
    {
      ParseIdString(created[k].id);
      assert t[|before| + k].id != t[i].id;
    }
    ConsumeAllLeavesOthers(t, bodies, i);
  }

  /**
   * Running `main` and then letting the consumer drain the messages it
   * published: every message is acknowledged, each created contact is emailed
   * exactly once, in creation order, and ends marked sent, while the contacts
   * that were there before are left as they were.
   */
  lemma ProducedContactsAreEmailed(table: seq<Contact>, fakes: seq<FakeIdentity>)
    requires TableValid(table)
    ensures var p := Produce(table, fakes);
      var r := ConsumeAll(p.table, Bodies(p.created));
      && !r.crashed
      && r.handled == |p.created|
      && r.emailed == p.created
      && |r.table| == |table| + |p.created|
      && (forall i :: 0 <= i < |table| ==> r.table[i] == table[i])
      && (forall k :: 0 <= k < |p.created| ==> r.table[|table| + k] == AsSent(p.created[k]))
  {
    var p := Produce(table, fakes);
    ProduceAppends(table, fakes);
    ConsumeAppendedEmails(table, p.created);
    ConsumeAppendedMarks(table, p.created);
    forall i | 0 <= i < |table|
      ensures ConsumeAll(p.table, Bodies(p.created)).table[i] == table[i]
    {
      ConsumeAppendedLeavesBefore(table, p.created, i);
    }
  }
}
