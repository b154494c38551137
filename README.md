# Anthem index filter: a Dafny model

The program streams Anthem's machine-readable-file index, a JSON object with a
`reporting_structure` array of records. Each record lists reporting plans and
in-network files. For every file location that contains `anthem/NY`, the program
writes the location to `Anthem_NY_Filter.txt`, once per location, in the order it
first appears. It also computes whether a record has a New York PPO plan, but that
flag never decides what is written.

This project models that record loop and proves what it writes:

- `Strings`: substring search and ASCII lower-casing.
- `Filters`: the two predicates `isPlanRelevant` and `containsLocationFilter`.
- `Index`: the Go record types and the decoded document. The document is a
  sequence of top-level fields, and each target field holds its array
  elements. Each read whose error the program checks is a constructor of
  its own. `Decode` gives the records delivered before the first failure.
  The first `reporting_structure` field ends the field loop: the element
  loop stops in front of the array's closing `]` without reading it, so the
  next `More()` of the field loop sees that bracket and returns false. No
  field after it is ever read (`DecodeReadsFirstTargetArray`).
- `Dedupe`: `Admitted(seen, locations)`, the lines the file loop writes
  starting from the `seen` set, and its properties.
- `OutputFile`: the output text, one newline-terminated line per location,
  and reading it back.
- `Sink`: the buffered writer reduced to its size, its buffer, the bytes
  already flushed, its free space and `Flush`.
- `Pipeline`: class `Pipeline` holds the `seen` set and the writer. Its methods
  carry the loops of `main`: fields, array elements, plans, files, the flush
  after each write, and the final flush. The top-level method `IngestIndex`
  runs one whole document.
- `RunProperties`: what a whole run writes, stated on the decoded records.

The class invariant `Pipeline.Valid` holds after every step:
- `seen` is exactly the set of lines written so far;
- no line has been written twice;
- every line passes the location filter;
- the flushed text followed by the buffered text is exactly the lines written
  so far, each ended by `"\n"`;
- the writer's free space is above 2048 bytes.

Until the final flush, `Pipeline.OnSchedule` holds as well: the number of
lines the file has received is `FlushedCount(emitted)`, the flush policy
replayed on the lines written so far. This policy empties the whole buffer
right after any write that leaves at most 2048 bytes free, and at no other
time.

Two places where the program's behaviour is easy to misread:

- The relevance flag is computed and then ignored. The `continue` in the plan
  loop only moves on to the next plan. Every record's files are filtered and
  written whatever its plans say, including a record with no plans.
  `RelevanceDoesNotGate` and `PlansDoNotAffectOutput` pin this down.
- The program defers a flush, but `log.Fatalf` exits without running deferred
  calls. After a fatal error the file therefore holds only what was already
  flushed: exactly the lines the flush policy had handed over, a prefix of
  whole lines of the full output, and less than 2048 bytes short of it.
  `IngestIndex` states this.

Relevance also matches the region code `ny` inside words, so "Anthem PPO
Company" is relevant (`RegionCodeMatchesInsideWords`). Since relevance gates
nothing, this does not change the output.

## Model

| member | source | states |
|---|---|---|
| `Strings.Contains` | ingestFile.go:183-189 | `strings.Contains` holds exactly when the substring occurs at some index |
| `Strings.ToLowerLowers` | ingestFile.go:182 | lower-casing keeps the length, turns each upper-case ASCII letter into its own lower-case letter, and leaves every other character as it is |
| `Filters.IsPlanRelevant` | ingestFile.go:181-184 | a plan name is relevant iff its lower-cased form contains `ppo`, and contains `ny` or `new york` |
| `Filters.ContainsLocationFilter` | ingestFile.go:188-190 | a location passes iff `anthem/NY` occurs in it at some index, exactly as written |
| `Filters.PlanRelevanceIgnoresCase` | ingestFile.go:182-183 | flipping the ASCII case of any letters of a plan name leaves its relevance unchanged |
| `Filters.PlanRelevanceExamples` | ingestFile.go:181-184 | "Anthem PPO New York" and "ANTHEM ppo NY" are relevant; "Anthem HMO California" is not |
| `Filters.RegionCodeMatchesInsideWords` | ingestFile.go:183 | "Anthem PPO Company" is relevant, because `ny` matches inside "Company" |
| `Filters.NoLetterPNotRelevant` | ingestFile.go:183 | a plan name without the letter p in either case is never relevant |
| `Filters.LocationFilterIsCaseSensitive` | ingestFile.go:188-190 | "anthem/NY/a.json" passes the filter; "x/anthem/ny/a.json" does not |
| `Filters.LocationFilterMatchesAnywhere` | ingestFile.go:188-190 | any location with `anthem/NY` somewhere in it passes, whatever comes before or after |
| `Filters.NoCapitalNRejected` | ingestFile.go:189 | a location with no `N` in it never passes the filter |
| `Index.DecodeFields` | ingestFile.go:66-81 | a document with no field named `reporting_structure`, and no unreadable name, completes with no records; every record delivered is an element of a target array |
| `Index.Decode` | ingestFile.go:60-81 | an unreadable object start is fatal; every record delivered is an element of a `reporting_structure` array of the document |
| `Index.DecodeElementsAppend` | ingestFile.go:81-88 | once the first part of an array decodes, decoding the rest continues it: records concatenate |
| `Index.DecodeElementsFailure` | ingestFile.go:84-88 | an element that fails to decode ends the run; nothing after it is decoded |
| `Index.DecodeElementsStep` | ingestFile.go:81-88 | one more element either ends the run with the decode error or adds its record |
| `Index.DecodeFieldsAppend` | ingestFile.go:66-74 | fields with other names in front of the rest are passed over: decoding is that of the rest |
| `Index.DecodeFieldsEnds` | ingestFile.go:66-81 | once a target field or an unreadable name has been reached, nothing after it is read |
| `Index.DecodeFieldsFailure` | ingestFile.go:66-79 | a failure reading a field name or an array start ends decoding there |
| `Index.DecodeReadsFirstTargetArray` | ingestFile.go:66-88 | with only other names before it, the document's records and status are those of its first target array, whatever follows |
| `Index.DecodeFieldsStep` | ingestFile.go:66-81 | after fields with other names, the next field alone decides: fatal name error, fatal array-start error, or its array's decoding; with none left, completion with no records |
| `Index.OnlyTargetFieldsDecoded` | ingestFile.go:73-74 | fields not named `reporting_structure` play no part in decoding, whatever their values |
| `Index.DecodedRecordsComeFromElements` | ingestFile.go:81-88 | the records delivered are the array's elements, in order, up to the first that fails; decoding completes iff every element decodes, and then every element gave a record |
| `Dedupe.Admitted` | ingestFile.go:104-118 | no more lines than locations, and every line written passes the filter and was not in `seen` |
| `Dedupe.AdmittedMembers` | ingestFile.go:104-118 | a location is written iff it occurs, passes the filter and is not already in `seen` |
| `Dedupe.AdmittedNoDuplicates` | ingestFile.go:113-118 | no location is written twice |
| `Dedupe.AdmittedInFirstOccurrenceOrder` | ingestFile.go:104-121 | written lines follow the order of each location's first occurrence |
| `Dedupe.AdmittedAppend` | ingestFile.go:57-121 | processing two location lists one after the other, with `seen` carried over, writes what processing their concatenation writes |
| `Dedupe.AdmittedNothingNew` | ingestFile.go:104-116 | locations that each fail the filter or are already in `seen` write nothing |
| `Dedupe.ReprocessingAdmitsNothing` | ingestFile.go:111-118 | processing the same locations again writes nothing and leaves `seen` unchanged |
| `Dedupe.NoDuplicatesExtend` | ingestFile.go:114-118 | appending a location not yet written keeps the written lines duplicate-free |
| `OutputFile.LinesAppend` | ingestFile.go:121 | the text of two batches of lines is the two texts concatenated |
| `OutputFile.LinesSplit` | ingestFile.go:121-129 | the flushed text followed by the buffered text is the text of all lines |
| `OutputFile.LinesExtend` | ingestFile.go:121 | writing one location appends it and a newline to the unflushed text |
| `OutputFile.SplitLinesRoundTrip` | ingestFile.go:121 | if no location holds a newline, splitting the file text on newlines gives back exactly the written lines |
| `OutputFile.LinesEndInNewline` | ingestFile.go:121 | non-empty output ends in a newline: there is no partial last line |
| `Sink.BufferedWriter.constructor` | ingestFile.go:54 | a new writer has the given size, an empty buffer and nothing flushed |
| `Sink.BufferedWriter.Available` | ingestFile.go:127 | the free space is at most the size, and equals it exactly when nothing is buffered |
| `Sink.BufferedWriter.WriteString` | ingestFile.go:121 | the string is appended to the buffer and the file is untouched |
| `Sink.BufferedWriter.Flush` | ingestFile.go:127-129 | the whole buffer is appended to the file and the buffer is emptied |
| `Pipeline.AllLocations` | ingestFile.go:81-104 | every file location of every decoded record is among the locations traversed |
| `Pipeline.Output` | ingestFile.go:104-121 | the run's output has no duplicates and every line passes the location filter |
| `Pipeline.HasRelevantPlan` | ingestFile.go:91-101 | the plan loop returns true iff some plan of the record is relevant |
| `Pipeline.FlushedCount` | ingestFile.go:121-129 | under the flush policy, the lines not yet handed to the file always leave more than 2048 bytes of the 4096-byte buffer free |
| `Pipeline.FlushedCountGrows` | ingestFile.go:121-129 | writing a line never takes back a flush |
| `Pipeline.Pipeline.constructor` | ingestFile.go:54-57 | an empty `seen` set and a fresh writer of the default size, with the invariant holding and nothing flushed |
| `Pipeline.Pipeline.ProcessFile` | ingestFile.go:104-129 | one file: written iff it passes the filter and is not in `seen`, otherwise nothing changes; when written, the buffer goes to the file exactly when at most 2048 bytes are left free, and the file only grows |
| `Pipeline.Pipeline.WriteLine` | ingestFile.go:116-129 | a new qualifying location is appended to the buffer, then the whole buffer is flushed iff at most 2048 bytes are left free; the invariant and the schedule are kept |
| `Pipeline.Pipeline.ProcessRecord` | ingestFile.go:90-130 | the relevance flag equals "some plan is relevant", the lines written are `Admitted(seen, file locations)` whatever the flag, and the file only grows |
| `Pipeline.Pipeline.ProcessArray` | ingestFile.go:80-131 | the lines written are those of the decoded records, up to the first element that fails, which ends the run; the file only grows |
| `Pipeline.Pipeline.Run` | ingestFile.go:59-133 | the returned status is the decoder's, and the lines written are `Admitted` over all locations of the records of the first target array; the file only grows |
| `Pipeline.Pipeline.FinalFlush` | ingestFile.go:135-139 | after the final flush the buffer is empty and the file text is every written line, in order |
| `Pipeline.IngestIndex` | ingestFile.go:54-139 | on completion the file is exactly the run's output; on a fatal error it is the text of the lines the flush policy had flushed, less than 2048 bytes short of the output |
| `RunProperties.AllLocationsMembers` | ingestFile.go:81-104 | the locations traversed are exactly the file locations of the decoded records |
| `RunProperties.OutputCharacterized` | ingestFile.go:81-121 | the output holds exactly the qualifying input locations, each once, in first-occurrence order across records and files |
| `RunProperties.PlansDoNotAffectOutput` | ingestFile.go:91-104 | records with the same file lists give the same output, whatever their plans |
| `RunProperties.RecordLocationsIncluded` | ingestFile.go:81-104 | every location of any single record is among the run's traversed locations |
| `RunProperties.RepeatedRecordWritesNothing` | ingestFile.go:111-118 | appending any record the run has already processed writes nothing more |
| `RunProperties.RelevanceDoesNotGate` | ingestFile.go:91-104 | a record with a qualifying location writes it, whether its plans are relevant, irrelevant or absent |
| `RunProperties.FilteredTwoRecords` | ingestFile.go:104-108 | of two records, only the one whose location passes the filter contributes |
| `RunProperties.DuplicateLocationWrittenOnce` | ingestFile.go:113-116 | a qualifying location listed twice in one record is written once |
| `RunProperties.ExampleLocationsFiltered` | ingestFile.go:189 | "anthem/NY/file1.json" passes the filter and "anthem/CA/file2.json" does not |
| `RunProperties.TwoRecordExample` | ingestFile.go:81-121 | a New York PPO record with "anthem/NY/file1.json" and a California HMO record with "anthem/CA/file2.json" write only "anthem/NY/file1.json" |

## Left out

- HTTP fetch, status check, the goroutine and pipe that pump the body, and gzip decompression (ingestFile.go:147-177): these are network I/O, concurrency and a foreign transform. The model starts from what the decoder delivers.
- The token-level behaviour of `json.Decoder` (`Token`, `More`, `Decode`): a document is given as its decoded fields and elements, with each read failure the program checks a constructor. In particular, the program reads a non-target field's name and then does not skip its value: the next `Token` call reads that value as if it were a name. The model gives each field a name and a value and ignores non-target values.
- `Index.Decode`: the error of `decoder.More()` is not modelled. `More()` answers false on a read error as well as at a closing bracket, so a stream that breaks between elements or between fields ends the loops as if the document had ended, and the run completes. The model has no constructor for such a break; it only covers the reads whose error the program checks.
- Write and flush errors: the file is not modelled, so writing and flushing always succeed. `os.Create`, `Close`, the timing and the success message (ingestFile.go:37, 48-52, 141-142) are left out too.
- `log.Fatalf` is modelled as a `Fatal` status that stops the run, without the final flush. The diagnostic text is not modelled.
- `Sink.BufferedWriter.WriteString`: does not model bufio's own flush when one write exceeds the free space; the buffer simply grows past its size. So the claim that the file only ever holds whole lines, made in `Pipeline.IngestIndex`, rests on this simplification.
- `Pipeline.Pipeline.ProcessFile`: the dedupe key is the raw location. The program builds it with `fmt.Sprintf(location)`, which mangles a location containing `%`; the model assumes locations contain no `%`.
- `Strings.ToLower` lower-cases ASCII letters only, where Go's `strings.ToLower` is Unicode-aware.
- `Sink.BufferedWriter.Available`, `Pipeline.FlushedCount` and the 2048-byte bounds of `Pipeline.IngestIndex` count string lengths in characters, where bufio counts UTF-8 bytes; the two agree for ASCII locations, and a location with non-ASCII characters makes the model flush later than the program.
- `Sink.DefaultBufferSize` (4096) is bufio's default size, which `bufio.NewWriter` uses; it is not written in the repository's code.
