/** What a whole run writes, stated on the decoded records. */
module RunProperties {
  import opened Filters
  import opened Index
  import opened Dedupe
  import opened Pipeline

  predicate InRecords(records: seq<ReportingStructure>, x: string)
  {
    exists k, m :: 0 <= k < |records| && 0 <= m < |records[k].inNetworkFiles| &&
                   records[k].inNetworkFiles[m].location == x
  }

  /** The locations of the records are exactly their files' locations. */
  lemma {:induction false} AllLocationsMembers(records: seq<ReportingStructure>)
    ensures forall x :: x in AllLocations(records) <==> InRecords(records, x)
  {
    if records != [] {
      AllLocationsMembers(records[1..]);
      var files := records[0].inNetworkFiles;
      forall x
        ensures x in AllLocations(records) <==> InRecords(records, x)
      {
        if x in Locations(files) {
          var m :| 0 <= m < |files| && Locations(files)[m] == x;
          assert records[0].inNetworkFiles[m].location == x;
        } else if InRecords(records[1..], x) {
          var k, m :| 0 <= k < |records[1..]| && 0 <= m < |records[1..][k].inNetworkFiles| &&
                      records[1..][k].inNetworkFiles[m].location == x;
          assert records[k + 1].inNetworkFiles[m].location == x;
        }
        if InRecords(records, x) {
          var k, m :| 0 <= k < |records| && 0 <= m < |records[k].inNetworkFiles| &&
                      records[k].inNetworkFiles[m].location == x;
          if k == 0 {
            assert Locations(files)[m] == x;
          } else {
            assert records[1..][k - 1].inNetworkFiles[m].location == x;
          }
        }
      }
    }
  }

  /** The output holds exactly the input locations that pass the filter, each
      once, in the order of their first occurrence across records and files. */
  lemma OutputCharacterized(records: seq<ReportingStructure>)
    ensures forall x :: x in Output(records) <==> InRecords(records, x) && ContainsLocationFilter(x)
    ensures NoDuplicates(Output(records))
    ensures InFirstOccurrenceOrder(Output(records), AllLocations(records))
  {
    AllLocationsMembers(records);
    AdmittedMembers({}, AllLocations(records));
    AdmittedNoDuplicates({}, AllLocations(records));
    AdmittedInFirstOccurrenceOrder({}, AllLocations(records));
  }

  /** The plan lists play no part: records with the same file lists give the same
      output, whatever their plans. */
  lemma {:induction false} PlansDoNotAffectOutput(a: seq<ReportingStructure>, b: seq<ReportingStructure>)
    requires |a| == |b|
    requires forall k :: 0 <= k < |a| ==> a[k].inNetworkFiles == b[k].inNetworkFiles
    ensures Output(a) == Output(b)
  {
    AllLocationsAgree(a, b);
  }

  lemma {:induction false} AllLocationsAgree(a: seq<ReportingStructure>, b: seq<ReportingStructure>)
    requires |a| == |b|
    requires forall k :: 0 <= k < |a| ==> a[k].inNetworkFiles == b[k].inNetworkFiles
    ensures AllLocations(a) == AllLocations(b)
  {
    if a != [] {
      AllLocationsAgree(a[1..], b[1..]);
    }
  }

  /** The locations of any one of the records are among those of all of them. */
  lemma {:induction false} RecordLocationsIncluded(records: seq<ReportingStructure>, k: int)
    requires 0 <= k < |records|
    ensures forall x :: x in Locations(records[k].inNetworkFiles) ==> x in AllLocations(records)
  {
    if k > 0 {
      RecordLocationsIncluded(records[1..], k - 1);
    }
  }

  /** Processing a record again, after the records it came with, writes nothing. */
  lemma RepeatedRecordWritesNothing(records: seq<ReportingStructure>, k: int)
    requires 0 <= k < |records|
    ensures Output(records + [records[k]]) == Output(records)
  {
    var rs := records[k];
    AllLocationsAppend(records, [rs]);
    assert [rs][1..] == [];
    assert AllLocations([rs]) == Locations(rs.inNetworkFiles);
    AdmittedAppend({}, AllLocations(records), Locations(rs.inNetworkFiles));
    AdmittedMembers({}, AllLocations(records));
    RecordLocationsIncluded(records, k);
    var seen := {} + Elems(Output(records));
    var locations := Locations(rs.inNetworkFiles);
    forall m | 0 <= m < |locations| && ContainsLocationFilter(locations[m])
      ensures locations[m] in seen
    {
      assert locations[m] in locations;
    }
    AdmittedNothingNew(seen, locations);
  }

  const FileNY: string := "anthem/NY/file1.json"
  const FileCA: string := "anthem/CA/file2.json"

  lemma ExampleLocationsFiltered()
    ensures ContainsLocationFilter(FileNY) && !ContainsLocationFilter(FileCA)
  {
    LocationFilterMatchesAnywhere("", "/file1.json");
    assert "" + LocationMarker + "/file1.json" == FileNY;
    NoCapitalNRejected(FileCA);
  }

  /** One record holding a single qualifying location writes exactly that
      location, whatever its plans: relevance does not gate output, and a record
      without plans still counts. */
  lemma {:induction false} RelevanceDoesNotGate(location: string, plans: seq<ReportingPlan>)
    requires ContainsLocationFilter(location)
    ensures Output([ReportingStructure([InNetworkFile(location)], plans)]) == [location]
  {
    var records := [ReportingStructure([InNetworkFile(location)], plans)];
    assert Locations(records[0].inNetworkFiles) == [location];
    assert records[1..] == [];
    assert AllLocations(records) == [location] + AllLocations([]) == [location];
    assert Admitted({}, [location]) == [location] + Admitted({} + {location}, []);
  }

  /** A record whose location passes the filter and one whose location does not:
      only the first location is written. */
  lemma {:induction false} FilteredTwoRecords(good: string, bad: string, plans1: seq<ReportingPlan>,
                                              plans2: seq<ReportingPlan>)
    requires ContainsLocationFilter(good) && !ContainsLocationFilter(bad)
    ensures Output([ReportingStructure([InNetworkFile(good)], plans1),
                    ReportingStructure([InNetworkFile(bad)], plans2)]) == [good]
  {
    var records := [ReportingStructure([InNetworkFile(good)], plans1),
                    ReportingStructure([InNetworkFile(bad)], plans2)];
    assert Locations(records[0].inNetworkFiles) == [good];
    assert Locations(records[1].inNetworkFiles) == [bad];
    assert records[1..][1..] == [];
    assert AllLocations(records[1..]) == [bad] + AllLocations([]) == [bad];
    assert AllLocations(records) == [good] + [bad] == [good, bad];
    assert [good, bad][1..] == [bad];
    assert Admitted({} + {good}, [bad]) == Admitted({} + {good}, []) == [];
    assert Admitted({}, [good, bad]) == [good] + Admitted({} + {good}, [bad]);
  }

  /** The same qualifying location twice in one record is written once. */
  lemma {:induction false} DuplicateLocationWrittenOnce(location: string, plans: seq<ReportingPlan>)
    requires ContainsLocationFilter(location)
    ensures Output([ReportingStructure([InNetworkFile(location), InNetworkFile(location)], plans)]) == [location]
  {
    var records := [ReportingStructure([InNetworkFile(location), InNetworkFile(location)], plans)];
    assert Locations(records[0].inNetworkFiles) == [location, location];
    assert records[1..] == [];
    assert AllLocations(records) == [location, location] + AllLocations([]) == [location, location];
    assert [location, location][1..] == [location];
    assert Admitted({} + {location}, [location]) == Admitted({} + {location}, []) == [];
    assert Admitted({}, [location, location]) == [location] + Admitted({} + {location}, [location]);
  }

  /** The New York PPO record and the California HMO record: only the New York
      location is written. */
  lemma TwoRecordExample()
    ensures Output([ReportingStructure([InNetworkFile(FileNY)], [ReportingPlan("Anthem PPO New York")]),
                    ReportingStructure([InNetworkFile(FileCA)], [ReportingPlan("Anthem HMO California")])])
            == [FileNY]
  {
    ExampleLocationsFiltered();
    FilteredTwoRecords(FileNY, FileCA, [ReportingPlan("Anthem PPO New York")], [ReportingPlan("Anthem HMO California")]);
  }
}
