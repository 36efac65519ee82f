/** How admission records follow the accepted commands of a run. */
module RecordKeeping {
  import opened LittleEndian
  import opened Domain
  import opened Admission

  /** No two accepted commands share a client identity. */
  ghost predicate DistinctKeys(accepted: seq<Message>) {
    forall i, j | 0 <= i < j < |accepted| :: KeyOf(accepted[i]) != KeyOf(accepted[j])
  }

  /** What the index must hold for one accepted command. */
  ghost function RecordAt(accepted: seq<Message>, sequenced: nat, completed: nat, batches: seq<Batch>, k: nat): Record
    requires k < |accepted| < U64_LIMIT && BusinessOf(accepted[k]).Some? && completed <= |batches|
  {
    var business := BusinessOf(accepted[k]).value;
    if k < completed then Record(business, Completed, k + 1, Some(batches[k]))
    else if k < sequenced then Record(business, Sequenced, k + 1, None)
    else Record(business, Reserved, 0, None)
  }

  /**
   * The index holds exactly one record per accepted command: completed with its own result, sequenced with its own
   * number, or reserved, in acceptance order.
   */
  ghost predicate Recorded(records: Records, accepted: seq<Message>, sequenced: nat, completed: nat, batches: seq<Batch>) {
    && completed <= sequenced <= |accepted| < U64_LIMIT && completed <= |batches|
    && DistinctKeys(accepted)
    && (forall k | 0 <= k < |accepted| :: Identified(accepted[k]))
    && (forall k | 0 <= k < |accepted| ::
          && KeyOf(accepted[k]).value in records
          && records[KeyOf(accepted[k]).value] == RecordAt(accepted, sequenced, completed, batches, k))
    && (forall key | key in records :: exists k :: 0 <= k < |accepted| && KeyOf(accepted[k]) == Some(key))
    && |records| == |accepted|
  }

  lemma NothingRecorded()
    ensures Recorded(map[], [], 0, 0, [])
  {
  }

  lemma RecordedKeysAreDistinct(records: Records, accepted: seq<Message>, sequenced: nat, completed: nat, batches: seq<Batch>)
    requires Recorded(records, accepted, sequenced, completed, batches)
    ensures DistinctKeys(accepted) && |records| == |accepted| < U64_LIMIT
    ensures completed <= sequenced <= |accepted| && completed <= |batches|
  {
  }

  lemma RecordedIsWellKept(records: Records, accepted: seq<Message>, sequenced: nat, completed: nat, batches: seq<Batch>)
    requires Recorded(records, accepted, sequenced, completed, batches)
    ensures WellKept(records)
  {
    hide KeyOf, BusinessOf;
    forall key | key in records
      ensures records[key].state.Completed? <==> records[key].result.Some?
    {
      var k :| 0 <= k < |accepted| && KeyOf(accepted[k]) == Some(key);
      assert records[KeyOf(accepted[k]).value] == RecordAt(accepted, sequenced, completed, batches, k);
    }
  }

  /** A first submission adds one reserved record. */
  lemma RecordSubmission(records: Records, accepted: seq<Message>, sequenced: nat, completed: nat, batches: seq<Batch>,
                         m: Message)
    requires Recorded(records, accepted, sequenced, completed, batches)
    requires Identified(m) && KeyOf(m).value !in records && |accepted| + 1 < U64_LIMIT
    ensures Recorded(records[KeyOf(m).value := Fresh(m)], accepted + [m], sequenced, completed, batches)
  {
    hide KeyOf, BusinessOf;
    var key := KeyOf(m).value;
    var after, more := records[key := Fresh(m)], accepted + [m];
    forall k | 0 <= k < |more|
      ensures Identified(more[k]) && KeyOf(more[k]).value in after
      ensures after[KeyOf(more[k]).value] == RecordAt(more, sequenced, completed, batches, k)
      ensures k < |accepted| ==> KeyOf(more[k]) != Some(key)
    {
      if k < |accepted| {
        assert more[k] == accepted[k] && KeyOf(accepted[k]).value in records;
      }
    }
    forall other | other in after
      ensures exists k :: 0 <= k < |more| && KeyOf(more[k]) == Some(other)
    {
      if other == key {
        assert KeyOf(more[|accepted|]) == Some(other);
      } else {
        var k :| 0 <= k < |accepted| && KeyOf(accepted[k]) == Some(other);
        assert more[k] == accepted[k];
      }
    }
  }

  lemma UpdateRecord(records: Records, accepted: seq<Message>, sequenced: nat, completed: nat, batches: seq<Batch>,
                     sequenced': nat, completed': nat, k: nat)
    requires Recorded(records, accepted, sequenced, completed, batches) && k < |accepted|
    requires completed' <= sequenced' <= |accepted| && completed' <= |batches|
    requires forall j | 0 <= j < |accepted| && j != k ::
               RecordAt(accepted, sequenced', completed', batches, j) == RecordAt(accepted, sequenced, completed, batches, j)
    ensures KeyOf(accepted[k]).value in records
    ensures var after := records[KeyOf(accepted[k]).value := RecordAt(accepted, sequenced', completed', batches, k)];
            Recorded(after, accepted, sequenced', completed', batches)
  {
    hide KeyOf, BusinessOf;
    var key := KeyOf(accepted[k]).value;
    assert key in records;
    var after := records[key := RecordAt(accepted, sequenced', completed', batches, k)];
    assert after.Keys == records.Keys;
    assert |after| == |after.Keys| && |records| == |records.Keys|;
    forall j | 0 <= j < |accepted|
      ensures KeyOf(accepted[j]).value in after
      ensures after[KeyOf(accepted[j]).value] == RecordAt(accepted, sequenced', completed', batches, j)
    {
      if j != k {
        assert KeyOf(accepted[j]) != KeyOf(accepted[k]);
      }
    }
    forall other | other in after
      ensures exists j :: 0 <= j < |accepted| && KeyOf(accepted[j]) == Some(other)
    {
      assert other in records;
    }
  }

  /** The oldest reserved command is the one that gets the next number. */
  lemma RecordSequenced(records: Records, accepted: seq<Message>, sequenced: nat, completed: nat, batches: seq<Batch>)
    requires Recorded(records, accepted, sequenced, completed, batches) && sequenced < |accepted|
    ensures Identified(accepted[sequenced]) && KeyOf(accepted[sequenced]).value in records
    ensures var key := KeyOf(accepted[sequenced]).value;
            && records[key].state.Reserved? && records[key].command == BusinessOf(accepted[sequenced]).value
            && Recorded(records[key := records[key].(state := Sequenced, sequence := sequenced + 1)],
                        accepted, sequenced + 1, completed, batches)
  {
    hide KeyOf, BusinessOf;
    UpdateRecord(records, accepted, sequenced, completed, batches, sequenced + 1, completed, sequenced);
    hide Recorded;
    assert records[KeyOf(accepted[sequenced]).value] == RecordAt(accepted, sequenced, completed, batches, sequenced) by {
      RecordOf(records, accepted, sequenced, completed, batches, sequenced);
    }
  }

  lemma RecordOf(records: Records, accepted: seq<Message>, sequenced: nat, completed: nat, batches: seq<Batch>, k: nat)
    requires Recorded(records, accepted, sequenced, completed, batches) && k < |accepted|
    ensures Identified(accepted[k]) && KeyOf(accepted[k]).value in records
    ensures records[KeyOf(accepted[k]).value] == RecordAt(accepted, sequenced, completed, batches, k)
  {
    hide KeyOf, BusinessOf;
  }

  /** The oldest command without a result is the one whose result arrives next. */
  lemma RecordCompleted(records: Records, accepted: seq<Message>, sequenced: nat, completed: nat, batches: seq<Batch>)
    requires Recorded(records, accepted, sequenced, completed, batches) && completed < sequenced && completed < |batches|
    ensures Identified(accepted[completed]) && KeyOf(accepted[completed]).value in records
    ensures var key := KeyOf(accepted[completed]).value;
            && records[key].state.Sequenced? && records[key].sequence == completed + 1
            && Recorded(records[key := records[key].(state := Completed, result := Some(batches[completed]))],
                        accepted, sequenced, completed + 1, batches)
  {
    hide KeyOf, BusinessOf;
    UpdateRecord(records, accepted, sequenced, completed, batches, sequenced, completed + 1, completed);
    RecordOf(records, accepted, sequenced, completed, batches, completed);
    hide Recorded;
  }

  /** Results of later commands change no record. */
  lemma RecordedMoreBatches(records: Records, accepted: seq<Message>, sequenced: nat, completed: nat,
                            batches: seq<Batch>, batch: Batch)
    requires Recorded(records, accepted, sequenced, completed, batches)
    ensures Recorded(records, accepted, sequenced, completed, batches + [batch])
  {
    hide KeyOf, BusinessOf;
    forall k | 0 <= k < |accepted|
      ensures RecordAt(accepted, sequenced, completed, batches + [batch], k) ==
              RecordAt(accepted, sequenced, completed, batches, k)
    {
    }
  }

  /** Matching messages with the same identity and business content keep the same records. */
  lemma RecordedSameCommands(records: Records, accepted: seq<Message>, accepted': seq<Message>, sequenced: nat,
                             completed: nat, batches: seq<Batch>)
    requires Recorded(records, accepted, sequenced, completed, batches)
    requires |accepted| == |accepted'|
    requires forall k | 0 <= k < |accepted| ::
               KeyOf(accepted[k]) == KeyOf(accepted'[k]) && BusinessOf(accepted[k]) == BusinessOf(accepted'[k])
    ensures Recorded(records, accepted', sequenced, completed, batches)
  {
    hide KeyOf, BusinessOf;
    forall k | 0 <= k < |accepted'|
      ensures Identified(accepted'[k]) && KeyOf(accepted'[k]).value in records
      ensures records[KeyOf(accepted'[k]).value] == RecordAt(accepted', sequenced, completed, batches, k)
    {
      assert Identified(accepted[k]);
    }
    forall key | key in records
      ensures exists k :: 0 <= k < |accepted'| && KeyOf(accepted'[k]) == Some(key)
    {
      var k :| 0 <= k < |accepted| && KeyOf(accepted[k]) == Some(key);
      assert KeyOf(accepted'[k]) == Some(key);
    }
    forall i, j | 0 <= i < j < |accepted'|
      ensures KeyOf(accepted'[i]) != KeyOf(accepted'[j])
    {
      assert KeyOf(accepted[i]) != KeyOf(accepted[j]);
    }
  }

  /** Records are determined by the accepted commands and their results. */
  lemma RecordsAreDetermined(records: Records, records': Records, accepted: seq<Message>, sequenced: nat,
                             completed: nat, batches: seq<Batch>)
    requires Recorded(records, accepted, sequenced, completed, batches)
    requires Recorded(records', accepted, sequenced, completed, batches)
    ensures records == records'
  {
    hide KeyOf, BusinessOf;
    forall key | key in records || key in records'
      ensures key in records && key in records' && records[key] == records'[key]
    {
      var k :| 0 <= k < |accepted| && KeyOf(accepted[k]) == Some(key);
      assert records[KeyOf(accepted[k]).value] == RecordAt(accepted, sequenced, completed, batches, k);
      assert records'[KeyOf(accepted[k]).value] == RecordAt(accepted, sequenced, completed, batches, k);
    }
  }
}
