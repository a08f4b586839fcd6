/**
  The commits of a range, read back out of what git log printed.

  `ReadLogExact` says what a run reads out of anything git can print, a message that carries the separator bytes
  included: every commit as it was, or an error when some field carries a whole record end. `ReadExactly` says of any
  text whatever whether it is read, and what it fails with.
*/
module CommitLog {
  import opened Outcomes
  import opened Signoff
  import opened Splitting

  const FIELD_SEPARATOR := '\0'
  const RECORD_SEPARATOR := '\U{1E}'
  const RECORD_END := [RECORD_SEPARATOR, '\n']
  const FIXED_FIELDS := 5

  datatype LogError =
    | Unended(rest: string)
    | ShortRecord(record: string)
    | CountDiffers(listed: nat, printed: nat)
    | HashDiffers(position: nat, hashListed: string, hashPrinted: string)

  // ---------------------------------------------------------------- where records end

  predicate EndsHere(s: string) {
    |s| >= 2 && s[0] == RECORD_SEPARATOR && s[1] == '\n'
  }

  /** How often a record end stands in a text. */
  function Ends(s: string): nat {
    if s == "" then 0 else (if EndsHere(s) then 1 else 0) + Ends(s[1..])
  }

  /** strings.Cut on the record end: what stands in front of the first one, and behind it. */
  function CutRecord(s: string): Option<(string, string)> {
    if s == "" then None
    else if EndsHere(s) then Some(("", s[2..]))
    else
      match CutRecord(s[1..])
      case None => None
      case Some(parts) => Some(([s[0]] + parts.0, parts.1))
  }

  predicate Straddles(a: string, b: string) {
    a != "" && b != "" && a[|a| - 1] == RECORD_SEPARATOR && b[0] == '\n'
  }

  lemma {:induction false} EndsAcross(a: string, b: string)
    requires !Straddles(a, b)
    ensures Ends(a + b) == Ends(a) + Ends(b)
  {
    if a == "" {
      assert a + b == b;
    } else {
      assert (a + b)[1..] == a[1..] + b;
      assert EndsHere(a + b) == EndsHere(a);
      EndsAcross(a[1..], b);
    }
  }

  lemma EndsOfEnd(rest: string)
    ensures Ends(RECORD_END + rest) == 1 + Ends(rest)
  {
    var s := RECORD_END + rest;
    assert EndsHere(s) && !EndsHere(s[1..]);
    assert s[1..][1..] == rest;
  }

  lemma EndsOfRecord(body: string, rest: string)
    ensures Ends(body + RECORD_END + rest) == Ends(body) + 1 + Ends(rest)
  {
    EndsAcross(body, RECORD_END + rest);
    EndsOfEnd(rest);
    assert body + RECORD_END + rest == body + (RECORD_END + rest);
  }

  /** A body without a record end is what the cut gives back, whatever it ends in. */
  lemma {:induction false} CutGivesBody(body: string, rest: string)
    requires Ends(body) == 0
    ensures CutRecord(body + RECORD_END + rest) == Some((body, rest))
  {
    var s := body + RECORD_END + rest;
    if body == "" {
      assert s[2..] == rest;
    } else {
      assert s[1..] == body[1..] + RECORD_END + rest;
      assert EndsHere(s) == EndsHere(body);
      CutGivesBody(body[1..], rest);
      assert [body[0]] + body[1..] == body;
    }
  }

  lemma {:induction false} CutParts(s: string)
    ensures match CutRecord(s)
            case None => Ends(s) == 0
            case Some(parts) => s == parts.0 + RECORD_END + parts.1 && Ends(parts.0) == 0 && |parts.1| < |s|
  {
    if s != "" && !EndsHere(s) {
      CutParts(s[1..]);
      if CutRecord(s[1..]).Some? {
        var parts := CutRecord(s[1..]).value;
        var front := [s[0]] + parts.0;
        assert s == front + RECORD_END + parts.1;
        assert front[1..] == parts.0;
        assert EndsHere(front) ==> EndsHere(s);
      }
    } else if EndsHere(s) {
      assert s == "" + RECORD_END + s[2..];
    }
  }

  // ---------------------------------------------------------------- reading

  function NonEmpty(values: seq<string>): seq<string> {
    if values == [] then [] else (if values[0] == "" then [] else [values[0]]) + NonEmpty(values[1..])
  }

  /** One record, as the commit it stands for. */
  function ReadRecord(record: string): Result<Commit, LogError> {
    var fields := Split(record, FIELD_SEPARATOR);
    if |fields| <= FIXED_FIELDS then Failure(ShortRecord(record))
    else Success(Commit(
      fields[0], |Fields(fields[1])|, Identity(fields[2], fields[3]), fields[4],
      NonEmpty(fields[FIXED_FIELDS..]), false))
  }

  function Ahead(commits: seq<Commit>, rest: Result<seq<Commit>, LogError>): Result<seq<Commit>, LogError> {
    match rest
    case Success(more) => Success(commits + more)
    case Failure(e) => Failure(e)
  }

  /** What the reading of a whole log comes to. */
  function Parse(out: string): Result<seq<Commit>, LogError>
    decreases |out|
  {
    if out == "" then Success([])
    else
      CutParts(out);
      match CutRecord(out)
      case None => Failure(Unended(out))
      case Some((record, rest)) =>
        match ReadRecord(record)
        case Failure(e) => Failure(e)
        case Success(commit) => Ahead([commit], Parse(rest))
  }

  lemma {:induction false} NonEmptyBoth(values: seq<string>, more: seq<string>)
    ensures NonEmpty(values + more) == NonEmpty(values) + NonEmpty(more)
  {
    if values == [] {
      assert values + more == more;
    } else {
      assert (values + more)[1..] == values[1..] + more;
      NonEmptyBoth(values[1..], more);
    }
  }

  lemma NonEmptyAppend(values: seq<string>, last: string)
    ensures NonEmpty(values + [last]) == NonEmpty(values) + if last == "" then [] else [last]
  {
    NonEmptyBoth(values, [last]);
    assert [last][1..] == [];
  }

  /** The empty values are left out, and nothing else. */
  lemma {:induction false} NonEmptyIs(values: seq<string>)
    ensures NonEmpty([""]) == []
    ensures "" !in values ==> NonEmpty(values) == values
  {
    assert [""][1..] == [];
    if values != [] {
      NonEmptyIs(values[1..]);
      assert values == [values[0]] + values[1..];
    }
  }

  lemma ParseStep(out: string)
    requires out != ""
    ensures CutRecord(out).None? ==> Parse(out) == Failure(Unended(out))
    ensures CutRecord(out).Some? && ReadRecord(CutRecord(out).value.0).Failure?
      ==> Parse(out) == Failure(ReadRecord(CutRecord(out).value.0).error)
    ensures CutRecord(out).Some? && ReadRecord(CutRecord(out).value.0).Success?
      ==> Parse(out) == Ahead([ReadRecord(CutRecord(out).value.0).value], Parse(CutRecord(out).value.1))
    ensures CutRecord(out).Some? ==> |CutRecord(out).value.1| < |out|
  {
    CutParts(out);
  }

  lemma AheadTwice(commits: seq<Commit>, commit: Commit, rest: Result<seq<Commit>, LogError>)
    ensures Ahead(commits, Ahead([commit], rest)) == Ahead(commits + [commit], rest)
  {
    if rest.Success? {
      assert commits + ([commit] + rest.value) == commits + [commit] + rest.value;
    }
  }

  lemma AheadOfNothing(rest: Result<seq<Commit>, LogError>)
    ensures Ahead([], rest) == rest
  {
    if rest.Success? {
      assert [] + rest.value == rest.value;
    }
  }

  /** parseLog */
  method ParseLog(out: string) returns (r: Result<seq<Commit>, LogError>)
    ensures r == Parse(out)
  {
    hide Parse, CutRecord, Fields, Split, NonEmpty;
    var commits: seq<Commit> := [];
    var rest := out;
    AheadOfNothing(Parse(out));
    while rest != ""
      invariant Parse(out) == Ahead(commits, Parse(rest))
      decreases |rest|
    {
      ParseStep(rest);
      var cut := CutRecord(rest);
      if cut.None? {
        return Failure(Unended(rest));
      }
      var (record, after) := cut.value;
      rest := after;
      var fields := Split(record, FIELD_SEPARATOR);
      if |fields| <= FIXED_FIELDS {
        return Failure(ShortRecord(record));
      }
      var signoffs := SignoffsOf(fields[FIXED_FIELDS..]);
      var commit := Commit(
        fields[0], |Fields(fields[1])|, Identity(fields[2], fields[3]), fields[4], signoffs, false);
      AheadTwice(commits, commit, Parse(rest));
      commits := commits + [commit];
    }
    ParseNothing(commits);
    return Success(commits);
  }

  lemma ParseNothing(commits: seq<Commit>)
    ensures Ahead(commits, Parse("")) == Success(commits)
  {
    assert commits + [] == commits;
  }

  /** The inner loop of parseLog, over the trailer fields of one record. */
  method SignoffsOf(values: seq<string>) returns (signoffs: seq<string>)
    ensures signoffs == NonEmpty(values)
  {
    hide NonEmpty;
    signoffs := [];
    NonEmptyOfNothing();
    for i := 0 to |values|
      invariant signoffs == NonEmpty(values[..i])
    {
      assert values[..i + 1] == values[..i] + [values[i]];
      NonEmptyAppend(values[..i], values[i]);
      if values[i] != "" {
        signoffs := signoffs + [values[i]];
      }
    }
    assert values[..|values|] == values;
  }

  lemma NonEmptyOfNothing()
    ensures NonEmpty([]) == []
  {}

  // ---------------------------------------------------------------- which logs are read

  /** Bodies, each with a record end behind it. */
  function Recorded(bodies: seq<string>): string {
    if bodies == [] then "" else bodies[0] + RECORD_END + Recorded(bodies[1..])
  }

  /** Every log is bodies that hold no record end, each ended by one, and a rest that holds none either. */
  lemma {:induction false} EveryLogIsRecorded(out: string) returns (bodies: seq<string>, rest: string)
    ensures (forall b | b in bodies :: Ends(b) == 0) && Ends(rest) == 0 && out == Recorded(bodies) + rest
    decreases |out|
  {
    bodies, rest := [], out;
    CutParts(out);
    if CutRecord(out).Some? {
      var (body, after) := CutRecord(out).value;
      hide CutRecord, Ends;
      var more;
      more, rest := EveryLogIsRecorded(after);
      bodies := [body] + more;
      assert bodies[1..] == more;
      assert out == body + RECORD_END + after;
    }
  }

  /** A record of fewer than six fields, told by the NULs between them. */
  ghost predicate Short(body: string) {
    multiset(body)['\0'] < 5
  }

  lemma ShortIsRefused(body: string)
    ensures ReadRecord(body) == Failure(ShortRecord(body)) <==> Short(body)
    ensures ReadRecord(body).Failure? <==> Short(body)
  {
    hide Fields, NonEmpty;
    SplitCounts(body, FIELD_SEPARATOR);
  }

  /** What a log fails with: its first short record, or what stands behind the last record end when none is short. */
  ghost predicate FailsFirst(bodies: seq<string>, rest: string, e: LogError) {
    if exists b :: b in bodies && Short(b) then
      exists k :: 0 <= k < |bodies| && Short(bodies[k]) && (forall j | 0 <= j < k :: !Short(bodies[j])) && e == ShortRecord(bodies[k])
    else rest != "" && e == Unended(rest)
  }

  lemma FailsBehind(body: string, bodies: seq<string>, rest: string, e: LogError)
    requires !Short(body) && FailsFirst(bodies, rest, e)
    ensures FailsFirst([body] + bodies, rest, e)
  {
    hide Short;
    var all := [body] + bodies;
    if b :| b in bodies && Short(b) {
      var k :| 0 <= k < |bodies| && Short(bodies[k]) && (forall j | 0 <= j < k :: !Short(bodies[j])) && e == ShortRecord(bodies[k]);
      assert b in all;
      assert all[k + 1] == bodies[k] && forall j | 0 < j < k + 1 :: all[j] == bodies[j - 1];
    }
  }

  /** A log is read exactly when it ends in a record end and every record has six fields, and otherwise fails so. */
  lemma {:induction false} ReadExactly(bodies: seq<string>, rest: string)
    requires (forall b | b in bodies :: Ends(b) == 0) && Ends(rest) == 0
    ensures var parsed := Parse(Recorded(bodies) + rest);
            && (parsed.Success? <==> rest == "" && forall b | b in bodies :: !Short(b))
            && (parsed.Failure? ==> FailsFirst(bodies, rest, parsed.error))
  {
    var out := Recorded(bodies) + rest;
    if bodies == [] {
      assert out == rest;
      CutParts(rest);
      NoEndNoCut(rest);
    } else {
      var body, more := bodies[0], bodies[1..];
      assert bodies == [body] + more;
      assert out == body + RECORD_END + (Recorded(more) + rest);
      CutGivesBody(body, Recorded(more) + rest);
      ShortIsRefused(body);
      hide Recorded, Ends, CutRecord, Parse, ReadRecord, Short, FailsFirst;
      ParseStep(out);
      ReadExactly(more, rest);
      if Short(body) {
        FailsAtOnce(bodies, rest);
      } else if Parse(Recorded(more) + rest).Failure? {
        FailsBehind(body, more, rest, Parse(Recorded(more) + rest).error);
      }
    }
  }

  lemma FailsAtOnce(bodies: seq<string>, rest: string)
    requires bodies != [] && Short(bodies[0])
    ensures FailsFirst(bodies, rest, ShortRecord(bodies[0]))
  {
    hide Short;
    assert bodies[0] in bodies;
  }

  lemma NoEndNoCut(rest: string)
    requires Ends(rest) == 0
    ensures CutRecord(rest).None?
  {
    CutParts(rest);
    if CutRecord(rest).Some? {
      var parts := CutRecord(rest).value;
      EndsOfRecord(parts.0, parts.1);
    }
  }

  // ---------------------------------------------------------------- the guard

  function HashesOf(commits: seq<Commit>): (r: seq<string>)
    ensures |r| == |commits| && forall i | 0 <= i < |r| :: r[i] == commits[i].hash
  {
    seq(|commits|, i requires 0 <= i < |commits| => commits[i].hash)
  }

  /** How two lists of hashes differ first: in length, or else at the first position that differs. */
  ghost predicate FirstMismatch(hashes: seq<string>, commits: seq<Commit>, e: LogError) {
    if |hashes| != |commits| then e == CountDiffers(|hashes|, |commits|)
    else
      exists i | 0 <= i < |hashes| ::
        && e == HashDiffers(i + 1, hashes[i], commits[i].hash) && hashes[i] != commits[i].hash
        && hashes[..i] == HashesOf(commits)[..i]
  }

  /** matchHashes */
  method MatchHashes(hashes: seq<string>, commits: seq<Commit>) returns (mismatch: Option<LogError>)
    ensures mismatch.None? <==> hashes == HashesOf(commits)
    ensures mismatch.Some? ==> FirstMismatch(hashes, commits, mismatch.value)
  {
    if |hashes| != |commits| {
      return Some(CountDiffers(|hashes|, |commits|));
    }
    for i := 0 to |hashes|
      invariant forall j | 0 <= j < i :: hashes[j] == commits[j].hash
    {
      if commits[i].hash != hashes[i] {
        assert hashes[..i] == HashesOf(commits)[..i];
        return Some(HashDiffers(i + 1, hashes[i], commits[i].hash));
      }
    }
    return None;
  }

  /** readLog */
  method ReadLog(hashes: seq<string>, out: string) returns (r: Result<seq<Commit>, LogError>)
    ensures r.Success? <==> Parse(out).Success? && hashes == HashesOf(Parse(out).value)
    ensures r.Success? || Parse(out).Failure? ==> r == Parse(out)
    ensures r.Failure? && Parse(out).Success? ==> FirstMismatch(hashes, Parse(out).value, r.error)
  {
    hide Parse, FirstMismatch;
    var commits := ParseLog(out);
    if commits.Failure? {
      return commits;
    }
    var mismatch := MatchHashes(hashes, commits.value);
    if mismatch.Some? {
      return Failure(mismatch.value);
    }
    return commits;
  }

  // ---------------------------------------------------------------- what git log prints

  /** A commit of the range, as git fills the log format in. */
  datatype Logged = Logged(
    hash: string, parents: seq<string>, name: string, email: string, subject: string, trailers: seq<string>)

  function FieldsOf(c: Logged): seq<string> {
    [c.hash, if c.parents == [] then "" else Join(c.parents, ' '), c.name, c.email, c.subject]
    + if c.trailers == [] then [""] else c.trailers
  }

  function Body(c: Logged): string {
    Join(FieldsOf(c), FIELD_SEPARATOR)
  }

  /** logFormat */
  function PrintLog(commits: seq<Logged>): string {
    if commits == [] then "" else Body(commits[0]) + RECORD_END + PrintLog(commits[1..])
  }

  /** No field holds a NUL, and parents are hashes: words without white space. */
  ghost predicate Printable(c: Logged) {
    && (forall f | f in FieldsOf(c) :: FIELD_SEPARATOR !in f)
    && forall p | p in c.parents :: p != "" && NoSpace(p)
  }

  /** No field holds a whole record end, though it may hold or end in either of its bytes. */
  ghost predicate EndFree(c: Logged) {
    forall f | f in FieldsOf(c) :: Ends(f) == 0
  }

  function AsRead(c: Logged): Commit {
    Commit(c.hash, |c.parents|, Identity(c.name, c.email), c.subject, NonEmpty(c.trailers), false)
  }

  function AllAsRead(commits: seq<Logged>): (r: seq<Commit>)
    ensures |r| == |commits| && forall i | 0 <= i < |r| :: r[i] == AsRead(commits[i])
  {
    if commits == [] then [] else [AsRead(commits[0])] + AllAsRead(commits[1..])
  }

  /** git rev-list over the same range. */
  function HashesListed(commits: seq<Logged>): (r: seq<string>)
    ensures |r| == |commits| && forall i | 0 <= i < |r| :: r[i] == commits[i].hash
  {
    seq(|commits|, i requires 0 <= i < |commits| => commits[i].hash)
  }

  lemma {:induction false} EndsOfJoin(fields: seq<string>)
    requires |fields| >= 1
    ensures Ends(Join(fields, FIELD_SEPARATOR)) == 0 <==> forall f | f in fields :: Ends(f) == 0
  {
    if |fields| == 1 {
      assert fields[0] in fields;
    } else {
      var rest := Join(fields[1..], FIELD_SEPARATOR);
      var tail := [FIELD_SEPARATOR] + rest;
      assert fields[0] + [FIELD_SEPARATOR] + rest == fields[0] + tail;
      EndsAcross(fields[0], tail);
      assert tail[1..] == rest && !EndsHere(tail);
      EndsOfJoin(fields[1..]);
      assert fields == [fields[0]] + fields[1..];
    }
  }

  lemma BodyReadsBack(c: Logged)
    requires Printable(c)
    ensures ReadRecord(Body(c)) == Success(AsRead(c))
  {
    hide Fields, NoSpace;
    SplitJoin(FieldsOf(c), FIELD_SEPARATOR);
    if c.parents == [] {
      FieldsOfNothing();
    } else {
      FieldsOfJoin(c.parents);
    }
    assert [""][1..] == [] && NonEmpty([""]) == [];
    assert FieldsOf(c)[FIXED_FIELDS..] == if c.trailers == [] then [""] else c.trailers;
  }

  lemma FieldsOfNothing()
    ensures Fields("") == []
  {}

  lemma PrintUnfold(commits: seq<Logged>)
    requires commits != []
    ensures PrintLog(commits) == Body(commits[0]) + RECORD_END + PrintLog(commits[1..])
    ensures AllAsRead(commits) == [AsRead(commits[0])] + AllAsRead(commits[1..])
    ensures PrintLog(commits) != ""
  {}

  ghost predicate AllPrintable(commits: seq<Logged>) {
    forall c | c in commits :: Printable(c)
  }

  ghost predicate AllEndFree(commits: seq<Logged>) {
    forall c | c in commits :: EndFree(c)
  }

  lemma FirstAndRest(commits: seq<Logged>)
    requires commits != []
    ensures AllPrintable(commits) <==> Printable(commits[0]) && AllPrintable(commits[1..])
    ensures AllEndFree(commits) <==> EndFree(commits[0]) && AllEndFree(commits[1..])
  {
    hide Printable, EndFree;
    assert commits == [commits[0]] + commits[1..];
    assert commits[0] in commits;
  }

  /** Reading inverts printing, whatever bytes the fields hold short of a whole record end. */
  lemma {:induction false} ParseInvertsPrint(commits: seq<Logged>)
    requires AllPrintable(commits) && AllEndFree(commits)
    ensures Parse(PrintLog(commits)) == Success(AllAsRead(commits))
  {
    if commits == [] {
    } else {
      var c, rest := commits[0], commits[1..];
      FirstAndRest(commits);
      EndsOfJoin(FieldsOf(c));
      assert Ends(Body(c)) == 0;
      hide Printable, EndFree, Parse, PrintLog, ReadRecord, Ends, CutRecord, Body, AllPrintable, AllEndFree;
      PrintUnfold(commits);
      ParseInvertsPrint(rest);
      CutGivesBody(Body(c), PrintLog(rest));
      BodyReadsBack(c);
      ParseStep(PrintLog(commits));
    }
  }

  /** However a log is read, it is read into as many commits as it holds record ends. */
  lemma {:induction false} ParseCountsEnds(out: string)
    requires Parse(out).Success?
    ensures |Parse(out).value| == Ends(out)
    decreases |out|
  {
    if out == "" {
    } else {
      ParseStep(out);
      CutParts(out);
      hide Parse, ReadRecord, Ends, CutRecord;
      var parts := CutRecord(out).value;
      EndsOfRecord(parts.0, parts.1);
      ParseCountsEnds(parts.1);
    }
  }

  /** And a printed log holds one per commit only when no field holds another. */
  lemma {:induction false} PrintedEnds(commits: seq<Logged>)
    ensures Ends(PrintLog(commits)) >= |commits|
    ensures Ends(PrintLog(commits)) == |commits| <==> AllEndFree(commits)
  {
    if commits == [] {
    } else {
      FirstAndRest(commits);
      EndsOfJoin(FieldsOf(commits[0]));
      assert Ends(Body(commits[0])) == 0 <==> EndFree(commits[0]);
      hide Ends, Body, EndFree, AllEndFree, PrintLog;
      PrintUnfold(commits);
      PrintedEnds(commits[1..]);
      EndsOfRecord(Body(commits[0]), PrintLog(commits[1..]));
    }
  }

  /**
    Held to the hashes git rev-list lists, a printed log is read exactly when no field carries a whole record end, and
    then as the commits it was printed for: never one record more, and no field moved to another.
  */
  lemma ReadLogExact(commits: seq<Logged>)
    requires AllPrintable(commits)
    ensures var parsed := Parse(PrintLog(commits));
            parsed.Success? && HashesListed(commits) == HashesOf(parsed.value) <==> AllEndFree(commits)
    ensures AllEndFree(commits) ==> Parse(PrintLog(commits)) == Success(AllAsRead(commits))
  {
    hide Parse, Ends, PrintLog, AllEndFree, AllPrintable, AsRead;
    var parsed := Parse(PrintLog(commits));
    PrintedEnds(commits);
    if AllEndFree(commits) {
      ParseInvertsPrint(commits);
      SameHashes(commits);
    } else if parsed.Success? {
      ParseCountsEnds(PrintLog(commits));
      assert |HashesOf(parsed.value)| != |HashesListed(commits)|;
    }
  }

  lemma SameHashes(commits: seq<Logged>)
    ensures HashesListed(commits) == HashesOf(AllAsRead(commits))
  {}

  // ---------------------------------------------------------------- merges that bring nothing

  /** git show --remerge-diff of a commit, or what running it failed with. */
  type Remerge = string -> Result<string, string>

  /** A commit of two parents, whose own changes over what git merges by itself were read, is clean when there are none. */
  ghost predicate IsMarked(remerge: Remerge, before: Commit, after: Commit) {
    if before.parents != 2 then after == before
    else remerge(before.hash).Success? && after == before.(cleanMerge := remerge(before.hash) == Success(""))
  }

  /** markCleanMerges: in place, up to the first commit git cannot show. */
  method MarkCleanMerges(commits: array<Commit>, remerge: Remerge) returns (error: Option<string>)
    modifies commits
    ensures error.None? ==> forall i | 0 <= i < commits.Length :: IsMarked(remerge, old(commits[i]), commits[i])
    ensures error.Some? ==> exists k | 0 <= k < commits.Length ::
              && old(commits[k]).parents == 2 && remerge(old(commits[k]).hash) == Failure(error.value)
              && (forall i | 0 <= i < k :: IsMarked(remerge, old(commits[i]), commits[i]))
              && forall i | k <= i < commits.Length :: commits[i] == old(commits[i])
  {
    for i := 0 to commits.Length
      invariant forall j | 0 <= j < i :: IsMarked(remerge, old(commits[j]), commits[j])
      invariant forall j | i <= j < commits.Length :: commits[j] == old(commits[j])
    {
      if commits[i].parents != 2 {
        continue;
      }
      var diff := remerge(commits[i].hash);
      if diff.Failure? {
        return Some(diff.error);
      }
      commits[i] := commits[i].(cleanMerge := diff.value == "");
    }
    return None;
  }
}
