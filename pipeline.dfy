/** The record loop of the ingest program: for each decoded reporting structure
    compute whether a plan is relevant, then write every location that passes
    the location filter and has not been written before, flushing the buffered
    writer whenever its free space falls to the low-water mark, and once more
    at the end. */
module Pipeline {
  import opened Filters
  import opened Index
  import opened Dedupe
  import opened OutputFile
  import opened Sink

  /** The writer is flushed as soon as its free space is at most this. */
  const LowWaterMark: int := 2048

  function Locations(files: seq<InNetworkFile>): seq<string>
  {
    seq(|files|, k requires 0 <= k < |files| => files[k].location)
  }

  /** Every file location of the records, across records in order and within a
      record in file order. */
  function AllLocations(records: seq<ReportingStructure>): (locations: seq<string>)
    ensures forall k, m :: 0 <= k < |records| && 0 <= m < |records[k].inNetworkFiles| ==>
              records[k].inNetworkFiles[m].location in locations
  {
    if records == [] then []
    else
      var here, rest := Locations(records[0].inNetworkFiles), AllLocations(records[1..]);
      assert forall m :: 0 <= m < |records[0].inNetworkFiles| ==> records[0].inNetworkFiles[m].location == here[m];
      assert forall k :: 1 <= k < |records| ==> records[k] == records[1..][k - 1];
      here + rest
  }

  lemma {:induction false} AllLocationsAppend(a: seq<ReportingStructure>, b: seq<ReportingStructure>)
    ensures AllLocations(a + b) == AllLocations(a) + AllLocations(b)
  {
    if a == [] {
      assert a + b == b;
    } else {
      assert (a + b)[0] == a[0] && (a + b)[1..] == a[1..] + b;
      AllLocationsAppend(a[1..], b);
    }
  }

  /** The lines a run writes for the records it is given, starting from nothing. */
  function Output(records: seq<ReportingStructure>): (out: seq<string>)
    ensures NoDuplicates(out)
    ensures forall k :: 0 <= k < |out| ==> ContainsLocationFilter(out[k])
  {
    AdmittedNoDuplicates({}, AllLocations(records));
    Admitted({}, AllLocations(records))
  }

  predicate AnyPlanRelevant(plans: seq<ReportingPlan>)
  {
    exists k :: 0 <= k < |plans| && IsPlanRelevant(plans[k].planName)
  }

  /** The plan loop: stops at the first relevant plan. Its `continue` only moves
      on to the next plan. */
  method HasRelevantPlan(plans: seq<ReportingPlan>) returns (hasRelevantPlan: bool)
    ensures hasRelevantPlan <==> AnyPlanRelevant(plans)
  {
    hasRelevantPlan := false;
    for k := 0 to |plans|
      invariant !hasRelevantPlan
      invariant forall m :: 0 <= m < k ==> !IsPlanRelevant(plans[m].planName)
    {
      if IsPlanRelevant(plans[k].planName) {
        hasRelevantPlan := true;
        break;
      }
      if !hasRelevantPlan {
        continue;
      }
    }
  }

  /** Processing `done` and then `more` from the state after `emitted0` is
      processing `done + more`. */
  lemma StepRecords(seen0: set<string>, emitted0: seq<string>, done: seq<ReportingStructure>,
                    more: seq<ReportingStructure>)
    requires seen0 == Elems(emitted0)
    ensures emitted0 + Admitted(seen0, AllLocations(done + more)) ==
            emitted0 + Admitted(seen0, AllLocations(done)) +
            Admitted(Elems(emitted0 + Admitted(seen0, AllLocations(done))), AllLocations(more))
  {
    AllLocationsAppend(done, more);
    AdmittedAppend(seen0, AllLocations(done), AllLocations(more));
    ElemsAppend(emitted0, Admitted(seen0, AllLocations(done)));
  }

  /** Processing the first `k` locations and then location `k`, from the state
      after `emitted0`, is processing the first `k + 1`. */
  lemma StepFiles(seen0: set<string>, emitted0: seq<string>, locations: seq<string>, k: int)
    requires seen0 == Elems(emitted0) && 0 <= k < |locations|
    ensures var prefix := Admitted(seen0, locations[..k]);
            Elems(emitted0 + prefix) == seen0 + Elems(prefix) &&
            emitted0 + Admitted(seen0, locations[..k + 1]) ==
            emitted0 + prefix + Admitted(seen0 + Elems(prefix), [locations[k]])
  {
    ElemsAppend(emitted0, Admitted(seen0, locations[..k]));
    AdmittedAppend(seen0, locations[..k], [locations[k]]);
    assert locations[..k + 1] == locations[..k] + [locations[k]];
  }

  /** The flush policy replayed on the lines written into a fresh writer of the
      default size: how many of them have reached the file. After each write
      the whole buffer is flushed when no more than the low-water mark is left
      free. */
  function FlushedCount(lines: seq<string>): (n: nat)
    ensures n <= |lines|
    ensures DefaultBufferSize - |Lines(lines[n..])| > LowWaterMark
    decreases |lines|
  {
    if lines == [] then 0
    else
      var n0 := FlushedCount(lines[..|lines| - 1]);
      if DefaultBufferSize - |Lines(lines[n0..])| <= LowWaterMark then |lines| else n0
  }

  /** One more line: flushed along with everything pending exactly when the
      pending text, that line included, leaves at most the low-water mark free. */
  lemma FlushedCountStep(lines: seq<string>, line: string)
    ensures var n := FlushedCount(lines);
            var pending := Lines((lines + [line])[n..]);
            FlushedCount(lines + [line]) == if DefaultBufferSize - |pending| <= LowWaterMark then |lines| + 1 else n
  {
    assert (lines + [line])[..|lines + [line]| - 1] == lines;
  }

  /** Writing one more line never takes back a flush: the count only grows. */
  lemma FlushedCountGrows(lines: seq<string>, line: string)
    ensures FlushedCount(lines) <= FlushedCount(lines + [line])
  {
    assert (lines + [line])[..|lines + [line]| - 1] == lines;
  }

  class Pipeline {
    /** The run-wide set of locations already written. */
    var seen: set<string>
    const writer: BufferedWriter
    /** The lines written so far, in order. */
    ghost var emitted: seq<string>
    /** How many of them the writer has handed to the file. */
    ghost var flushedLines: nat

    ghost predicate Valid()
      reads this, writer
    {
      && seen == Elems(emitted)
      && NoDuplicates(emitted)
      && (forall k :: 0 <= k < |emitted| ==> ContainsLocationFilter(emitted[k]))
      && flushedLines <= |emitted|
      && writer.flushed == Lines(emitted[..flushedLines])
      && writer.buffer == Lines(emitted[flushedLines..])
      && writer.size == DefaultBufferSize
      && writer.Available() > LowWaterMark
    }

    /** The writer has been flushed exactly as the flush policy prescribes for
        the lines written so far. The final flush leaves this behind. */
    ghost predicate OnSchedule()
      reads this
    {
      flushedLines == FlushedCount(emitted)
    }

    /** A fresh writer of the default size and an empty `seen` set. */
    constructor ()
      ensures Valid() && OnSchedule() && fresh(writer)
      ensures seen == {} && emitted == [] && writer.flushed == []
    {
      seen := {};
      writer := new BufferedWriter(DefaultBufferSize);
      emitted := [];
      flushedLines := 0;
    }

    /** The body of the file loop, for one location. */
    method ProcessFile(location: string)
      requires Valid() && OnSchedule()
      modifies this, writer
      ensures Valid() && OnSchedule()
      ensures emitted == old(emitted) + Admitted(old(seen), [location])
      ensures !ContainsLocationFilter(location) || location in old(seen) ==> unchanged(this, writer)
      ensures ContainsLocationFilter(location) && location !in old(seen) ==>
                var written := old(writer.buffer) + location + "\n";
                if writer.size - |written| <= LowWaterMark
                then writer.flushed == old(writer.flushed) + written && writer.buffer == []
                else writer.flushed == old(writer.flushed) && writer.buffer == written
      ensures old(writer.flushed) <= writer.flushed
    {
      if !ContainsLocationFilter(location) {
        return;
      }
      var key := location;
      if key in seen {
        return;
      }
      assert Admitted(seen, [location]) == [location] + Admitted(seen + {location}, []);
      WriteLine(location);
    }

    /** Marks a new qualifying location as seen and writes it. The whole buffer
        then reaches the file exactly when at most the low-water mark is left
        free. */
    method WriteLine(location: string)
      requires Valid() && OnSchedule()
      requires ContainsLocationFilter(location) && location !in seen
      modifies this, writer
      ensures Valid() && OnSchedule()
      ensures emitted == old(emitted) + [location]
      ensures var written := old(writer.buffer) + location + "\n";
              if writer.size - |written| <= LowWaterMark
              then writer.flushed == old(writer.flushed) + written && writer.buffer == []
              else writer.flushed == old(writer.flushed) && writer.buffer == written
      ensures old(writer.flushed) <= writer.flushed
    {
      ghost var written := writer.buffer + location + "\n";
      seen := seen + {location};
      writer.WriteString(location + "\n");
      LinesExtend(emitted, flushedLines, location);
      ElemsAppend(emitted, [location]);
      assert Elems([location]) == {location};
      NoDuplicatesExtend(emitted, location);
      FlushedCountStep(emitted, location);
      emitted := emitted + [location];
      assert writer.buffer == Lines(emitted[flushedLines..]);
      if writer.Available() <= LowWaterMark {
        assert FlushedCount(emitted) == |emitted|;
        writer.Flush();
        assert writer.flushed == old(writer.flushed) + written && writer.buffer == [];
        LinesSplit(emitted, flushedLines);
        flushedLines := |emitted|;
        assert emitted[..flushedLines] == emitted;
      } else {
        assert FlushedCount(emitted) == flushedLines;
        assert writer.flushed == old(writer.flushed) && writer.buffer == written;
      }
    }

    /** One reporting structure: the relevance flag is computed, and every file
        location is processed whatever the flag says. */
    method ProcessRecord(rs: ReportingStructure) returns (hasRelevantPlan: bool)
      requires Valid() && OnSchedule()
      modifies this, writer
      ensures Valid() && OnSchedule()
      ensures hasRelevantPlan <==> AnyPlanRelevant(rs.reportingPlans)
      ensures emitted == old(emitted) + Admitted(old(seen), Locations(rs.inNetworkFiles))
      ensures old(writer.flushed) <= writer.flushed
    {
      hasRelevantPlan := HasRelevantPlan(rs.reportingPlans);
      var files := rs.inNetworkFiles;
      ghost var locations := Locations(files);
      ghost var seen0, emitted0, flushed0 := seen, emitted, writer.flushed;
      for k := 0 to |files|
        invariant Valid() && OnSchedule()
        invariant emitted == emitted0 + Admitted(seen0, locations[..k])
        invariant flushed0 <= writer.flushed
      {
        StepFiles(seen0, emitted0, locations, k);
        ProcessFile(files[k].location);
      }
      assert locations[..|files|] == locations;
    }

    /** The loop over the elements of the target array, processing each
        decoded record; an element that fails to decode ends the run at once. */
    method ProcessArray(elements: seq<Element>) returns (status: Status)
      requires Valid() && OnSchedule()
      modifies this, writer
      ensures Valid() && OnSchedule()
      ensures status == DecodeElements(elements).status
      ensures emitted == old(emitted) + Admitted(old(seen), AllLocations(DecodeElements(elements).records))
      ensures old(writer.flushed) <= writer.flushed
    {
      ghost var seen0, emitted0, flushed0 := seen, emitted, writer.flushed;
      var j := 0;
      assert elements[..0] == [];
      while j < |elements|
        invariant 0 <= j <= |elements|
        invariant Valid() && OnSchedule()
        invariant flushed0 <= writer.flushed
        invariant DecodeElements(elements[..j]).status == Completed
        invariant emitted == emitted0 + Admitted(seen0, AllLocations(DecodeElements(elements[..j]).records))
      {
        ghost var got := DecodeElements(elements[..j]).records;
        DecodeElementsStep(elements, j);
        if elements[j].Undecodable? {
          return Fatal(DecodeStage);
        }
        var rs := elements[j].structure;
        StepRecords(seen0, emitted0, got, [rs]);
        assert [rs][1..] == [];
        assert AllLocations([rs]) == Locations(rs.inNetworkFiles);
        var _ := ProcessRecord(rs);
        j := j + 1;
      }
      assert elements[..j] == elements;
      status := Completed;
    }

    /** The top-level loop over the document's fields. Fields with other names
        are passed over; the first target field's array is processed and ends
        the loop. A decoding failure ends the run at once. */
    method Run(doc: Document) returns (status: Status)
      requires Valid() && OnSchedule()
      modifies this, writer
      ensures Valid() && OnSchedule()
      ensures status == Decode(doc).status
      ensures emitted == old(emitted) + Admitted(old(seen), AllLocations(Decode(doc).records))
      ensures old(writer.flushed) <= writer.flushed
    {
      if doc.ObjectStartError? {
        assert AllLocations([]) == [];
        return Fatal(ObjectStartStage);
      }
      var fields := doc.fields;
      var i := 0;
      while i < |fields|
        invariant 0 <= i <= |fields|
        invariant forall k :: 0 <= k < i ==> !TakesPart(fields[k])
        invariant unchanged(this, writer)
      {
        DecodeFieldsStep(fields, i);
        var field := fields[i];
        if field.FieldNameError? {
          assert AllLocations([]) == [];
          return Fatal(FieldNameStage);
        }
        if field.name == TargetField {
          if field.value.ArrayStartError? {
            assert AllLocations([]) == [];
            return Fatal(ArrayStartStage);
          }
          status := ProcessArray(field.value.elements);
          return;
        }
        i := i + 1;
      }
      DecodeFieldsStep(fields, i);
      assert AllLocations([]) == [];
      status := Completed;
    }

    /** The flush after the loops: everything written reaches the file. */
    method FinalFlush()
      requires Valid()
      modifies this, writer
      ensures Valid()
      ensures emitted == old(emitted) && seen == old(seen)
      ensures writer.buffer == [] && writer.flushed == Lines(emitted)
    {
      writer.Flush();
      LinesSplit(emitted, flushedLines);
      flushedLines := |emitted|;
      assert emitted[..flushedLines] == emitted;
    }
  }

  /** A whole run on one document. When it completes, the file holds every
      qualifying location once, in first-seen order. A fatal error exits without
      the final flush, so the file then holds the lines the flush policy had
      handed over, and less than the low-water mark of output is lost. */
  method IngestIndex(doc: Document) returns (status: Status, file: string)
    ensures status == Decode(doc).status
    ensures status == Completed ==> file == Lines(Output(Decode(doc).records))
    ensures status.Fatal? ==>
              var out := Output(Decode(doc).records);
              file == Lines(out[..FlushedCount(out)])
    ensures status.Fatal? ==> |Lines(Output(Decode(doc).records))| - |file| < DefaultBufferSize - LowWaterMark
  {
    var pipeline := new Pipeline();
    status := pipeline.Run(doc);
    assert pipeline.emitted == Output(Decode(doc).records);
    LinesSplit(pipeline.emitted, pipeline.flushedLines);
    if status == Completed {
      pipeline.FinalFlush();
    }
    file := pipeline.writer.flushed;
  }
}
