/** The scan intake pipeline of the barcode scanner page: the decoder's
    `onDetected` callback and `addScanResult`, over the page's four pieces of
    state (the last accepted ID and its time, the newest-first list of scan
    results, and the set of IDs already scanned).

    `Detect` is the state transition as a function on `Pipeline` values; the
    class `ScanIntake` holds the same state in fields and performs the
    transition in place, and its methods are proved against `Detect`. */
module Scanner {
  import opened JsString
  import opened StudentId

  /** Only the newest ten results are kept. */
  const MaxResults: nat := 10

  /** A repeat of the last accepted ID within this many milliseconds is ignored. */
  const DebounceMs: int := 3000

  /** The fixed `type` block of every result. */
  datatype ResultType = ResultType(name: string, icon: string, color: string)

  const StudentIdType: ResultType := ResultType("Student ID", "fa-id-card", "#9C27B0")

  /** The `details` block of a result. */
  datatype Details = Details(
    branch: string,
    branchCode: string,
    branchClass: string,
    branchIcon: string,
    studentNumber: string,
    year: string,
    shortYear: string)

  /** One entry of `scanResults`. */
  datatype ScanRecord = ScanRecord(
    text: string,
    format: string,
    kind: ResultType,
    details: Details,
    time: int,
    id: int)

  /** The record `addScanResult` builds for a validated ID, stamped with the
      clock value `now`: the ID is cut at its slashes into `S` + branch, the
      number and the year (the pieces `split('/')` returns, as
      `RecordFollowsSplit` shows), the leading `S` is dropped from the first
      piece, and the branch is looked up. */
  function MakeRecord(code: string, format: string, now: int): (r: ScanRecord)
    requires IsStudentId(code)
    ensures r.text == code && r.format == format && r.time == now && r.id == now
  {
    var branchCode := code[1..3];
    var info := GetBranchInfo(branchCode);
    ScanRecord(
      code, format, StudentIdType,
      Details(info.name, branchCode, info.cssClass, info.icon, code[4..9], "20" + code[10..], code[10..]),
      now, now)
  }

  /** The record's details are read off the pieces of `code.split('/')`. */
  lemma RecordFollowsSplit(code: string, format: string, now: int)
    requires IsStudentId(code)
    ensures var parts := Split(code, '/');
            var d := MakeRecord(code, format, now).details;
            && |parts| == 3
            && d.branchCode == parts[0][1..]
            && d.studentNumber == parts[1]
            && d.shortYear == parts[2]
            && d.year == "20" + parts[2]
            && d == (var info := GetBranchInfo(parts[0][1..]);
                     Details(info.name, parts[0][1..], info.cssClass, info.icon, parts[1], "20" + parts[2], parts[2]))
  {
    SplitStudentId(code);
    assert code[..3][1..] == code[1..3];
  }

  /** The record's pieces reassemble into the ID, its year is the two-digit
      suffix prefixed with "20", and its branch comes from the table, never
      from the fallback entry. */
  lemma RecordRoundTrip(code: string, format: string, now: int)
    requires IsStudentId(code)
    ensures var d := MakeRecord(code, format, now).details;
            && Compose(d.branchCode, d.studentNumber, d.shortYear) == code
            && IsPieces(d.branchCode, d.studentNumber, d.shortYear)
            && d.year == "20" + d.shortYear
            && d.branchCode in BranchCodes
            && InTable(d.branchCode)
            && d.branch == BranchEntry(d.branchCode[0], d.branchCode[1]).value.name
            && d.branchClass == "branch-" + ToLower(d.branchCode)
  {
    BranchKeys(code[1..3]);
    assert code[1..3][0] == code[1] && code[1..3][1] == code[2];
    assert Compose(code[1..3], code[4..9], code[10..]) == code;
  }

  /** The pipeline's state: `lastScanned`, `lastScanTimeValue`, `scanResults`
      (newest first) and `scannedIDs`. */
  datatype Pipeline = Pipeline(
    lastScanned: string,
    lastScanTimeValue: int,
    scanResults: seq<ScanRecord>,
    scannedIDs: set<string>)

  /** The state when the page loads. */
  const Initial: Pipeline := Pipeline("", 0, [], {})

  /** What a detection leads to: the invalid-format warning, silence (a
      repeat inside the debounce window), the duplicate warning, or a new
      record. */
  datatype Outcome =
    | InvalidFormat(code: Code)
    | Debounced
    | Duplicate(studentId: string)
    | Accepted(record: ScanRecord)

  datatype Step = Step(next: Pipeline, outcome: Outcome)

  /** The `text` fields of a list of records. */
  function Texts(rs: seq<ScanRecord>): set<string> {
    if rs == [] then {} else {rs[0].text} + Texts(rs[1..])
  }

  predicate DistinctTexts(rs: seq<ScanRecord>) {
    forall i, j :: 0 <= i < j < |rs| ==> rs[i].text != rs[j].text
  }

  /** A record as `addScanResult` builds it for a valid ID. */
  predicate WellFormed(r: ScanRecord) {
    IsStudentId(r.text) && r == MakeRecord(r.text, r.format, r.time)
  }

  /** What every call of the pipeline keeps true: at most ten results; the
      seen set is exactly the set of their texts, which are pairwise distinct;
      every result is a well-formed record of a valid, clean ID; and the last
      accepted ID and time are those of the newest result (or the initial
      values while there is none). */
  predicate Inv(p: Pipeline) {
    && |p.scanResults| <= MaxResults
    && p.scannedIDs == Texts(p.scanResults)
    && DistinctTexts(p.scanResults)
    && AllWellFormed(p.scanResults)
    && (if p.scanResults == [] then p.lastScanned == "" && p.lastScanTimeValue == 0
        else p.lastScanned == p.scanResults[0].text && p.lastScanTimeValue == p.scanResults[0].time)
  }

  /** The list and set update of `addScanResult`: the record goes to the
      front; if that makes eleven, the oldest is dropped and its text leaves
      the seen set. */
  function AddResult(p: Pipeline, record: ScanRecord): Pipeline {
    var rs := [record] + p.scanResults;
    if |rs| > MaxResults then
      p.(scanResults := rs[..|rs| - 1], scannedIDs := p.scannedIDs - {rs[|rs| - 1].text})
    else
      p.(scanResults := rs)
  }

  /** `onDetected`, for the decoded `code` and `format`, at clock value `now`. */
  function Detect(p: Pipeline, code: Code, format: string, now: int): Step {
    if !IsValidStudentID(code) then
      Step(p, InvalidFormat(code))
    else
      var studentId := CleanStudentID(code.s);
      if studentId == p.lastScanned && now - p.lastScanTimeValue < DebounceMs then
        Step(p, Debounced)
      else if studentId in p.scannedIDs then
        Step(p, Duplicate(studentId))
      else
        var marked := p.(scannedIDs := p.scannedIDs + {studentId},
                         lastScanned := studentId,
                         lastScanTimeValue := now);
        var record := MakeRecord(studentId, format, now);
        Step(AddResult(marked, record), Accepted(record))
  }

  // ---------------------------------------------------------------------
  // Facts about the texts of a list of records

  lemma {:induction false} InTexts(rs: seq<ScanRecord>, x: string)
    ensures x in Texts(rs) <==> exists i :: 0 <= i < |rs| && rs[i].text == x
    decreases |rs|
  {
    if rs != [] {
      InTexts(rs[1..], x);
      if x in Texts(rs[1..]) {
        var i :| 0 <= i < |rs[1..]| && rs[1..][i].text == x;
        assert rs[i + 1].text == x;
      }
      if exists i :: 0 <= i < |rs| && rs[i].text == x {
        var i :| 0 <= i < |rs| && rs[i].text == x;
        if i > 0 { assert rs[1..][i - 1].text == x; }
      }
    }
  }

  /** Without the last record, a list of distinct texts loses exactly that
      record's text. */
  lemma DropLastTexts(rs: seq<ScanRecord>)
    requires |rs| > 0 && DistinctTexts(rs)
    ensures Texts(rs[..|rs| - 1]) == Texts(rs) - {rs[|rs| - 1].text}
  {
    var n := |rs|;
    var init := rs[..n - 1];
    forall x ensures x in Texts(init) <==> x in Texts(rs) && x != rs[n - 1].text {
      InTexts(init, x);
      InTexts(rs, x);
      if x in Texts(rs) && x != rs[n - 1].text {
        var i :| 0 <= i < n && rs[i].text == x;
        assert init[i].text == x;
      }
    }
  }

  // ---------------------------------------------------------------------
  // Properties of one call

  /** The page starts in a state that satisfies the invariant. */
  lemma InitialInv()
    ensures Inv(Initial)
  {
  }

  /** A record built by `MakeRecord` is well formed. */
  lemma MadeRecordWellFormed(id: string, format: string, now: int)
    requires IsStudentId(id)
    ensures WellFormed(MakeRecord(id, format, now))
  {
  }

  /** Putting a well-formed record with a new text in front of a list that
      satisfies the list part of the invariant keeps it, once the oldest is
      dropped when the list grows past ten. */
  lemma PushKeepsList(rs: seq<ScanRecord>, seen: set<string>, record: ScanRecord)
    requires |rs| <= MaxResults && seen == Texts(rs) && DistinctTexts(rs)
    requires record.text !in seen
    ensures var all := [record] + rs;
            var kept := if |all| > MaxResults then all[..|all| - 1] else all;
            var seen' := if |all| > MaxResults then (seen + {record.text}) - {all[|all| - 1].text}
                         else seen + {record.text};
            && |kept| <= MaxResults && kept[0] == record
            && seen' == Texts(kept) && DistinctTexts(kept)
  {
    var all := [record] + rs;
    assert all[1..] == rs;
    assert Texts(all) == seen + {record.text};
    InTexts(rs, record.text);
    assert DistinctTexts(all);
    if |all| > MaxResults {
      DropLastTexts(all);
    }
  }

  predicate AllWellFormed(rs: seq<ScanRecord>) {
    forall i :: 0 <= i < |rs| ==> WellFormed(rs[i])
  }

  /** A prefix of a list of well-formed records, with a well-formed record
      in front, is again a list of well-formed records. */
  lemma PushWellFormed(rs: seq<ScanRecord>, record: ScanRecord, n: nat)
    requires AllWellFormed(rs) && WellFormed(record) && n <= |rs|
    ensures AllWellFormed([record] + rs[..n])
  {
    var all := [record] + rs[..n];
    forall i | 0 <= i < |all| ensures WellFormed(all[i]) {
      if i > 0 {
        assert all[i] == rs[i - 1];
      }
    }
  }

  /** Pushing onto the front of a list and then dropping the last element
      when the list has grown past `cap` keeps a prefix of the old list. */
  lemma PushFront<T>(rs: seq<T>, x: T, cap: nat)
    requires 0 < cap && |rs| <= cap
    ensures var all := [x] + rs;
            var n := if |rs| < cap then |rs| else cap - 1;
            (if |all| > cap then all[..|all| - 1] else all) == [x] + rs[..n]
  {
    if |rs| == cap {
      assert ([x] + rs)[..|rs|] == [x] + rs[..cap - 1];
    }
  }

  /** Recording a valid ID that is not yet in the seen set keeps the
      invariant. */
  lemma AcceptKeepsInv(p: Pipeline, id: string, format: string, now: int)
    requires Inv(p) && IsStudentId(id) && id !in p.scannedIDs
    ensures Inv(AddResult(p.(scannedIDs := p.scannedIDs + {id}, lastScanned := id, lastScanTimeValue := now),
                          MakeRecord(id, format, now)))
  {
    var rs := p.scanResults;
    var record := MakeRecord(id, format, now);
    var next := AddResult(p.(scannedIDs := p.scannedIDs + {id}, lastScanned := id, lastScanTimeValue := now), record);
    MadeRecordWellFormed(id, format, now);
    PushKeepsList(rs, p.scannedIDs, record);
    var n := if |rs| < MaxResults then |rs| else MaxResults - 1;
    PushWellFormed(rs, record, n);
    PushFront(rs, record, MaxResults);
    assert next.scanResults == [record] + rs[..n];
    assert |next.scanResults| <= MaxResults;
    assert next.scannedIDs == Texts(next.scanResults);
    assert DistinctTexts(next.scanResults);
    assert AllWellFormed(next.scanResults);
    assert next.lastScanned == next.scanResults[0].text;
    assert next.lastScanTimeValue == next.scanResults[0].time;
  }

  /** Every call keeps the invariant. */
  lemma DetectPreservesInv(p: Pipeline, code: Code, format: string, now: int)
    requires Inv(p)
    ensures Inv(Detect(p, code, format, now).next)
  {
    if IsValidStudentID(code) {
      var id := CleanStudentID(code.s);
      if !(id == p.lastScanned && now - p.lastScanTimeValue < DebounceMs) && id !in p.scannedIDs {
        AcceptKeepsInv(p, id, format, now);
      }
    }
  }

  /** In a state satisfying the invariant, every stored text passes
      `isValidStudentID` and is its own cleaned form. */
  lemma StoredTextsClean(p: Pipeline)
    requires Inv(p)
    ensures forall i :: 0 <= i < |p.scanResults| ==>
              IsValidStudentID(Text(p.scanResults[i].text)) && CleanStudentID(p.scanResults[i].text) == p.scanResults[i].text
  {
    forall i | 0 <= i < |p.scanResults|
      ensures IsValidStudentID(Text(p.scanResults[i].text)) && CleanStudentID(p.scanResults[i].text) == p.scanResults[i].text
    {
      assert WellFormed(p.scanResults[i]);
      StudentIdIsValid(p.scanResults[i].text);
      StudentIdIsClean(p.scanResults[i].text);
    }
  }

  /** Only an accepted scan changes the state: an invalid code, a repeat
      inside the debounce window and a duplicate leave it as it was. */
  lemma RejectionChangesNothing(p: Pipeline, code: Code, format: string, now: int)
    ensures !Detect(p, code, format, now).outcome.Accepted? ==> Detect(p, code, format, now).next == p
  {
  }

  /** An ID that is already in the seen set never changes the state, at any
      time: inside the debounce window of the last accepted ID it is silent,
      otherwise it raises the duplicate warning. */
  lemma SeenIdChangesNothing(p: Pipeline, code: Code, format: string, now: int)
    requires IsValidStudentID(code) && CleanStudentID(code.s) in p.scannedIDs
    ensures Detect(p, code, format, now).next == p
    ensures var debounced := CleanStudentID(code.s) == p.lastScanned && now - p.lastScanTimeValue < DebounceMs;
            Detect(p, code, format, now).outcome == if debounced then Debounced else Duplicate(CleanStudentID(code.s))
  {
  }

  /** What acceptance does: the new record, built from the cleaned ID, is at
      the front, followed by the previous records in order (the oldest is
      dropped when there were already ten); the ID becomes the last accepted
      one, at time `now`, and is in the seen set, which otherwise loses only
      the dropped record's text. */
  lemma AcceptedShape(p: Pipeline, code: Code, format: string, now: int)
    requires Inv(p)
    requires Detect(p, code, format, now).outcome.Accepted?
    ensures var step := Detect(p, code, format, now);
            var id := CleanStudentID(code.s);
            var rec := step.outcome.record;
            var n := |p.scanResults|;
            && IsValidStudentID(code)
            && rec == MakeRecord(id, format, now)
            && id !in p.scannedIDs
            && step.next.scanResults[0] == rec
            && step.next.scanResults[1..] == (if n < MaxResults then p.scanResults else p.scanResults[..n - 1])
            && step.next.lastScanned == id
            && step.next.lastScanTimeValue == now
            && id in step.next.scannedIDs
            && step.next.scannedIDs == (if n < MaxResults then p.scannedIDs + {id}
                                        else (p.scannedIDs + {id}) - {p.scanResults[n - 1].text})
  {
    assert IsValidStudentID(code);
    var id := CleanStudentID(code.s);
    var rs := p.scanResults;
    var n := |rs|;
    var rec := MakeRecord(id, format, now);
    var next := AddResult(p.(scannedIDs := p.scannedIDs + {id}, lastScanned := id, lastScanTimeValue := now), rec);
    assert Detect(p, code, format, now) == Step(next, Accepted(rec));
    PushFront(rs, rec, MaxResults);
    if n == MaxResults {
      InTexts(rs, id);
      assert rs[n - 1].text != id;
    }
  }

  /** A valid code whose cleaned ID is outside the debounce window and not
      yet seen is accepted: the ID is marked as seen and last scanned at
      `now`, and its record is added. */
  lemma DetectAccepts(p: Pipeline, code: Code, format: string, now: int)
    requires IsValidStudentID(code)
    requires var id := CleanStudentID(code.s);
             !(id == p.lastScanned && now - p.lastScanTimeValue < DebounceMs) && id !in p.scannedIDs
    ensures var id := CleanStudentID(code.s);
            var rec := MakeRecord(id, format, now);
            var marked := p.(scannedIDs := p.scannedIDs + {id}, lastScanned := id, lastScanTimeValue := now);
            Detect(p, code, format, now) == Step(AddResult(marked, rec), Accepted(rec))
  {
  }

  /** An ID that is neither the last accepted one nor already seen is
      accepted while fewer than ten records are kept: its record goes to the
      front and nothing is dropped. */
  lemma AcceptFresh(p: Pipeline, id: string, format: string, now: int)
    requires IsStudentId(id) && id != p.lastScanned && id !in p.scannedIDs
    requires |p.scanResults| < MaxResults
    ensures var rec := MakeRecord(id, format, now);
            Detect(p, Text(id), format, now)
              == Step(Pipeline(id, now, [rec] + p.scanResults, p.scannedIDs + {id}), Accepted(rec))
  {
    StudentIdIsValid(id);
    StudentIdIsClean(id);
  }

  /** The same card presented again right after it was accepted changes
      nothing: within 3000 ms it is silently ignored, later it is reported as
      a duplicate. */
  lemma RepeatAfterAcceptance(p: Pipeline, code: Code, format: string, now: int,
                              again: Code, format2: string, later: int)
    requires Inv(p)
    requires Detect(p, code, format, now).outcome.Accepted?
    requires again.Text? && CleanStudentID(again.s) == CleanStudentID(code.s)
    ensures var first := Detect(p, code, format, now).next;
            var second := Detect(first, again, format2, later);
            && second.next == first
            && second.outcome == if later - now < DebounceMs then Debounced
                                 else Duplicate(CleanStudentID(code.s))
  {
    AcceptedShape(p, code, format, now);
    var first := Detect(p, code, format, now).next;
    assert IsValidStudentID(again);
    SeenIdChangesNothing(first, again, format2, later);
  }

  /** When an acceptance pushes the eleventh record out, the evicted ID
      leaves the seen set, the list stays at ten, and presenting the evicted
      ID next is accepted again, whatever the time. */
  lemma EvictionReopensOldest(p: Pipeline, code: Code, format: string, now: int,
                              format2: string, later: int)
    requires Inv(p)
    requires |p.scanResults| == MaxResults
    requires Detect(p, code, format, now).outcome.Accepted?
    ensures var next := Detect(p, code, format, now).next;
            var evicted := p.scanResults[MaxResults - 1].text;
            && |next.scanResults| == MaxResults
            && evicted !in next.scannedIDs
            && evicted !in Texts(next.scanResults)
            && Detect(next, Text(evicted), format2, later).outcome.Accepted?
  {
    var next := Detect(p, code, format, now).next;
    var evicted := p.scanResults[MaxResults - 1].text;
    AcceptedShape(p, code, format, now);
    DetectPreservesInv(p, code, format, now);
    assert WellFormed(p.scanResults[MaxResults - 1]);
    StudentIdIsValid(evicted);
    StudentIdIsClean(evicted);
    assert evicted != CleanStudentID(code.s) by {
      InTexts(p.scanResults, evicted);
    }
  }

  // ---------------------------------------------------------------------
  // Sequences of detections

  /** One call of `onDetected`. */
  datatype Detection = Detection(code: Code, format: string, now: int)

  /** The state after the detections `ds`, in order. */
  function Run(p: Pipeline, ds: seq<Detection>): Pipeline
    decreases |ds|
  {
    if ds == [] then p
    else Run(Detect(p, ds[0].code, ds[0].format, ds[0].now).next, ds[1..])
  }

  /** Every state the page can reach satisfies the invariant: in particular
      at most ten results are kept, and the seen set is exactly their IDs. */
  lemma {:induction false} RunPreservesInv(p: Pipeline, ds: seq<Detection>)
    requires Inv(p)
    ensures Inv(Run(p, ds))
    decreases |ds|
  {
    if ds != [] {
      DetectPreservesInv(p, ds[0].code, ds[0].format, ds[0].now);
      RunPreservesInv(Detect(p, ds[0].code, ds[0].format, ds[0].now).next, ds[1..]);
    }
  }

  /** After `a` was accepted on a fresh page, a different ID `b` is accepted
      too and goes in front of it. */
  lemma SecondFreshScan(a: string, b: string, format: string, t1: int, t2: int)
    requires IsStudentId(a) && IsStudentId(b) && a != b
    ensures var ra := MakeRecord(a, format, t1);
            var rb := MakeRecord(b, format, t2);
            Detect(Pipeline(a, t1, [ra], {a}), Text(b), format, t2)
              == Step(Pipeline(b, t2, [rb, ra], {a, b}), Accepted(rb))
  {
    var ra := MakeRecord(a, format, t1);
    var rb := MakeRecord(b, format, t2);
    AcceptFresh(Pipeline(a, t1, [ra], {a}), b, format, t2);
    assert [rb] + [ra] == [rb, ra] && {a} + {b} == {a, b};
  }

  /** Two different IDs presented to a fresh page are both accepted, and
      the list then holds their two records, newest first. */
  lemma TwoFreshScans(a: string, b: string, format: string, t1: int, t2: int)
    requires IsStudentId(a) && IsStudentId(b) && a != b
    ensures var ra := MakeRecord(a, format, t1);
            var rb := MakeRecord(b, format, t2);
            var p1 := Pipeline(a, t1, [ra], {a});
            && Detect(Initial, Text(a), format, t1) == Step(p1, Accepted(ra))
            && Detect(p1, Text(b), format, t2) == Step(Pipeline(b, t2, [rb, ra], {a, b}), Accepted(rb))
  {
    var ra := MakeRecord(a, format, t1);
    AcceptFresh(Initial, a, format, t1);
    assert [ra] + [] == [ra] && {} + {a} == {a};
    SecondFreshScan(a, b, format, t1, t2);
  }

  /** Which of the four outcomes a detection has. A repeat is silently
      ignored only when it is the last accepted ID inside the window; any
      other seen ID, including one re-scanned after a different ID, is a
      duplicate. */
  lemma OutcomeIff(p: Pipeline, code: Code, format: string, now: int)
    ensures var out := Detect(p, code, format, now).outcome;
            var id := if code.Text? then CleanStudentID(code.s) else "";
            var recent := id == p.lastScanned && now - p.lastScanTimeValue < DebounceMs;
            && (out.InvalidFormat? <==> !IsValidStudentID(code))
            && (out.Debounced? <==> IsValidStudentID(code) && recent)
            && (out.Duplicate? <==> IsValidStudentID(code) && !recent && id in p.scannedIDs)
            && (out.Accepted? <==> IsValidStudentID(code) && !recent && id !in p.scannedIDs)
  {
  }

  /** Detection looks at a valid code only through its cleaned form. */
  lemma SameCleanSameDetect(p: Pipeline, c1: Code, c2: Code, format: string, now: int)
    requires IsValidStudentID(c1) && IsValidStudentID(c2)
    requires CleanStudentID(c1.s) == CleanStudentID(c2.s)
    ensures Detect(p, c1, format, now) == Detect(p, c2, format, now)
  {
  }

  /** A student ID typed in lower case or read with white space around it is
      handled exactly like the ID itself. */
  lemma DetectIgnoresCaseAndBlanks(p: Pipeline, pre: string, id: string, post: string, format: string, now: int)
    requires IsStudentId(id)
    requires AllWhiteSpace(pre) && AllWhiteSpace(post)
    ensures Detect(p, Text(pre + ToLower(id) + post), format, now) == Detect(p, Text(id), format, now)
  {
    var raw := pre + ToLower(id) + post;
    CleanIgnoresCaseAndBlanks(pre, id, post);
    StudentIdIsClean(id);
    assert |raw| >= 12;
    SameCleanSameDetect(p, Text(raw), Text(id), format, now);
  }

  /** SCS/12345/23 and SAU/00001/99 are distinct student IDs. */
  lemma SampleIdsValid()
    ensures IsStudentId("SCS/12345/23") && IsStudentId("SAU/00001/99")
    ensures "SCS/12345/23" != "SAU/00001/99"
  {
    assert "SCS/12345/23"[1] != "SAU/00001/99"[1];
  }

  /** An unknown branch (SXX/12345/23) or a four-digit number (SCS/1234/23)
      is an invalid format. */
  lemma SampleIdsInvalid()
    ensures !IsValidStudentID(Text("SXX/12345/23"))
    ensures !IsValidStudentID(Text("SCS/1234/23"))
  {
    var x := "SXX/12345/23";
    assert !IsBranchPair(x[1], x[2]);
  }

  // ---------------------------------------------------------------------
  // The page's state, updated in place

  /** The closure variables of the scanner page and the two functions that
      update them. */
  class ScanIntake {
    var lastScanned: string
    var lastScanTimeValue: int
    var scanResults: seq<ScanRecord>
    var scannedIDs: set<string>

    /** The fields as a `Pipeline` value. */
    function State(): Pipeline
      reads this
    {
      Pipeline(lastScanned, lastScanTimeValue, scanResults, scannedIDs)
    }

    ghost predicate Valid()
      reads this
    {
      Inv(State())
    }

    constructor ()
      ensures State() == Initial && Valid()
    {
      lastScanned := "";
      lastScanTimeValue := 0;
      scanResults := [];
      scannedIDs := {};
    }

    /** `onDetected`: validate, debounce, reject duplicates, otherwise record
        the ID and hand it to `addScanResult`. */
    method OnDetected(code: Code, format: string, now: int) returns (outcome: Outcome)
      requires Valid()
      modifies this
      ensures Detect(old(State()), code, format, now) == Step(State(), outcome)
      ensures Valid()
    {
      ghost var before := State();
      DetectPreservesInv(before, code, format, now);
      if !IsValidStudentID(code) {
        return InvalidFormat(code);
      }
      var studentId := CleanStudentID(code.s);
      if studentId == lastScanned && now - lastScanTimeValue < DebounceMs {
        return Debounced;
      }
      if studentId in scannedIDs {
        return Duplicate(studentId);
      }
      scannedIDs := scannedIDs + {studentId};
      lastScanned := studentId;
      lastScanTimeValue := now;
      DetectAccepts(before, code, format, now);
      var record := AddScanResult(studentId, format, now);
      return Accepted(record);
    }

    /** `addScanResult`: build the record, put it at the front of the list,
        and when the list exceeds ten, pop the oldest and forget its ID. */
    method AddScanResult(code: string, format: string, now: int) returns (record: ScanRecord)
      requires IsStudentId(code)
      modifies this
      ensures record == MakeRecord(code, format, now)
      ensures State() == AddResult(old(State()), record)
    {
      record := MakeRecord(code, format, now);
      scanResults := [record] + scanResults;
      if |scanResults| > MaxResults {
        var removed := scanResults[|scanResults| - 1];
        scanResults := scanResults[..|scanResults| - 1];
        scannedIDs := scannedIDs - {removed.text};
      }
    }
  }
}
