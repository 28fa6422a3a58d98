/**
 * The build records read from the subjects of build mails, and the queries
 * on them: class results and the subject parsing of emails.build_results in
 * status/builds.py.
 *
 * A build subject has the shape
 *   Build <host>: <result> <arch> <word> <os> ...
 * and is cut at the single ':' and at whitespace.
 */
module BuildResults {
  import opened Wrappers
  import Text
  import Ordering
  import ArchiveCache

  /** One build: the dictionary {result, host, os, arch}. */
  datatype BuildRecord = BuildRecord(result: string, host: string, os: string, arch: string)

  /** The keys of a build record that the queries look up. */
  datatype Key = ResultKey | HostKey | OsKey | ArchKey

  function Field(r: BuildRecord, key: Key): string {
    match key
    case ResultKey => r.result
    case HostKey => r.host
    case OsKey => r.os
    case ArchKey => r.arch
  }

  /** _get_list(key, recs): the distinct values of one key, ascending. */
  function GetList(key: Key, recs: seq<BuildRecord>): (r: seq<string>)
    ensures Ordering.StrictlySorted(r)
    ensures forall v :: v in r <==> exists i :: 0 <= i < |recs| && Field(recs[i], key) == v
  {
    var column := seq(|recs|, i requires 0 <= i < |recs| => Field(recs[i], key));
    forall v ensures v in column <==> exists i :: 0 <= i < |recs| && Field(recs[i], key) == v {
      if exists i :: 0 <= i < |recs| && Field(recs[i], key) == v {
        var i :| 0 <= i < |recs| && Field(recs[i], key) == v;
        assert column[i] == v;
      }
    }
    Ordering.SortedSet(column)
  }

  /** The hosts of the failed builds of one architecture. */
  function HostsOf(fails: seq<BuildRecord>, arch: string): set<string> {
    set r | r in fails && r.arch == arch :: r.host
  }

  /** The test of failed_arch_builds: not set(failed_hosts).isdisjoint(hosts). */
  predicate Overlaps(hosts: set<string>, failedHosts: seq<string>) {
    exists h :: h in hosts && h in failedHosts
  }

  /** xs[idx[0]], xs[idx[1]], ... spell r, at strictly increasing positions of xs. */
  predicate Embeds(idx: seq<int>, r: seq<string>, xs: seq<string>) {
    && |idx| == |r|
    && (forall k :: 0 <= k < |idx| ==> 0 <= idx[k] < |xs| && xs[idx[k]] == r[k])
    && (forall k, l :: 0 <= k < l < |idx| ==> idx[k] < idx[l])
  }

  /** r is xs with some of its elements left out and the others in their order. */
  ghost predicate Subsequence(r: seq<string>, xs: seq<string>) {
    exists idx :: Embeds(idx, r, xs)
  }

  lemma SubsequenceSnoc(r: seq<string>, xs: seq<string>, x: string, keep: bool)
    requires Subsequence(r, xs)
    ensures Subsequence(r + (if keep then [x] else []), xs + [x])
  {
    var idx :| Embeds(idx, r, xs);
    var ys := xs + [x];
    assert forall k :: 0 <= k < |idx| ==> ys[idx[k]] == xs[idx[k]];
    if keep {
      var jdx := idx + [|xs|];
      assert forall k :: 0 <= k < |idx| ==> jdx[k] == idx[k];
      assert Embeds(jdx, r + [x], ys);
    } else {
      assert r + [] == r;
      assert Embeds(idx, r, ys);
    }
  }

  /** The architectures the loop of failed_arch_builds keeps, in the order given. */
  function KeepOverlapping(fails: seq<BuildRecord>, archs: seq<string>, failedHosts: seq<string>): (r: seq<string>)
    ensures forall a :: a in r <==> a in archs && Overlaps(HostsOf(fails, a), failedHosts)
    ensures Subsequence(r, archs)
    decreases |archs|
  {
    if archs == [] then
      assert Embeds([], [], []);
      []
    else
      var init, last := archs[..|archs| - 1], archs[|archs| - 1];
      var keep := Overlaps(HostsOf(fails, last), failedHosts);
      var rest := KeepOverlapping(fails, init, failedHosts);
      SubsequenceSnoc(rest, init, last, keep);
      assert archs == init + [last];
      rest + (if keep then [last] else [])
  }

  lemma {:induction false} KeepAll(fails: seq<BuildRecord>, archs: seq<string>, failedHosts: seq<string>)
    requires forall a :: a in archs ==> Overlaps(HostsOf(fails, a), failedHosts)
    ensures KeepOverlapping(fails, archs, failedHosts) == archs
    decreases |archs|
  {
    if archs != [] {
      var init, last := archs[..|archs| - 1], archs[|archs| - 1];
      assert archs == init + [last];
      assert last in archs;
      KeepAll(fails, init, failedHosts);
    }
  }

  /** results(passes, fails). */
  datatype Results = Results(passes: seq<BuildRecord>, fails: seq<BuildRecord>) {

    /** failed_hosts(): every host with a failed build, once, ascending. */
    function FailedHosts(): (r: seq<string>)
      ensures Ordering.StrictlySorted(r)
      ensures forall h :: h in r <==> exists i :: 0 <= i < |fails| && fails[i].host == h
    {
      GetList(HostKey, fails)
    }

    /** failed_archs(): every architecture with a failed build, once, ascending. */
    function FailedArchs(): (r: seq<string>)
      ensures Ordering.StrictlySorted(r)
      ensures forall a :: a in r <==> exists i :: 0 <= i < |fails| && fails[i].arch == a
    {
      GetList(ArchKey, fails)
    }

    /** Every failed architecture has a failed build on a failed host. */
    lemma FailedArchOverlaps(a: string)
      requires a in FailedArchs()
      ensures Overlaps(HostsOf(fails, a), FailedHosts())
    {
      var i :| 0 <= i < |fails| && fails[i].arch == a;
      assert fails[i].host in HostsOf(fails, a);
      assert fails[i].host in FailedHosts();
    }

    /** failed_arch_builds(): the failed architectures whose hosts meet the failed hosts. */
    method FailedArchBuilds() returns (archs: seq<string>)
      ensures archs == FailedArchs()
    {
      var failedHosts := FailedHosts();
      var all := FailedArchs();
      archs := [];
      var i := 0;
      while i < |all|
        invariant 0 <= i <= |all|
        invariant archs == KeepOverlapping(fails, all[..i], failedHosts)
      {
        var arch := all[i];
        var hosts := set r | r in fails && r.arch == arch :: r.host;
        if exists h :: h in hosts && h in failedHosts {
          archs := archs + [arch];
        }
        assert all[..i + 1][..i] == all[..i];
        i := i + 1;
      }
      assert all[..i] == all;
      forall a | a in all ensures Overlaps(HostsOf(fails, a), failedHosts) {
        FailedArchOverlaps(a);
      }
      KeepAll(fails, all, failedHosts);
    }
  }

  // ---------------------------------------------------------------- subjects

  function InvalidSubject(s: string): string {
    "invalid build subject: " + s
  }

  /** s[n:] in Python: empty when s is shorter than n. */
  function DropPrefix(s: string, n: nat): (r: string)
    ensures |s| >= n ==> r == s[n..]
    ensures |s| < n ==> r == []
  {
    if |s| >= n then s[n..] else []
  }

  /**
   * The record of one build subject, before its result is checked: the text
   * before the ':' without its first six characters ('Build ') is the host;
   * the words after it are the result, the architecture, one skipped word
   * and the operating system.
   */
  function ParseRecord(s: string): (r: Result<BuildRecord>)
    ensures r.Err? ==> r.msg == InvalidSubject(s)
  {
    var ss := Text.Split(s, ':');
    if |ss| != 2 then Err(InvalidSubject(s))
    else
      var srs := Text.Words(ss[1]);
      if |srs| < 4 then Err(InvalidSubject(s))
      else Ok(BuildRecord(srs[0], Text.Strip(DropPrefix(ss[0], 6)), srs[3], srs[1]))
  }

  /**
   * A subject is accepted exactly when it has one ':' and at least four words
   * after it; the host is then the text between 'Build ' and the ':', the
   * result, architecture and OS are the first, second and fourth words.
   */
  lemma ParseRecordShape(s: string)
    ensures ParseRecord(s).Ok? <==> |Text.Split(s, ':')| == 2 && |Text.Words(Text.Split(s, ':')[1])| >= 4
    ensures ParseRecord(s).Ok? ==>
      var left, right := Text.Split(s, ':')[0], Text.Split(s, ':')[1];
      var ws := Text.Words(right);
      && s == left + ":" + right && ':' !in left && ':' !in right
      && ParseRecord(s).value == BuildRecord(ws[0], Text.Strip(DropPrefix(left, 6)), ws[3], ws[1])
  {
    var ss := Text.Split(s, ':');
    if |ss| == 2 {
      assert Text.Join(ss, ':') == ss[0] + ":" + ss[1];
      var srs := Text.Words(ss[1]);
      if |srs| >= 4 {
        Text.StripNoSpace(srs[0]);
        Text.StripNoSpace(srs[1]);
        Text.StripNoSpace(srs[3]);
      }
    }
  }

  /** The parse of every subject, in order. */
  function ParseAll(subjects: seq<string>): (r: seq<Result<BuildRecord>>)
    ensures |r| == |subjects| && forall i :: 0 <= i < |r| ==> r[i] == ParseRecord(subjects[i])
  {
    seq(|subjects|, i requires 0 <= i < |subjects| => ParseRecord(subjects[i]))
  }

  /** Whether the loop of build_results accepts a parsed subject. */
  predicate Accepted(p: Result<BuildRecord>) {
    p.Ok? && (p.value.result == "PASSED" || p.value.result == "FAILED")
  }

  /** The error raised for a subject the loop rejects. */
  function RecordError(p: Result<BuildRecord>): string
    requires !Accepted(p)
  {
    if p.Err? then p.msg
    // the source's message expression looks up the missing key 'results'
    else ArchiveCache.KeyError("results")
  }

  /** The loop of build_results() over the parsed subjects of the build mails. */
  function Collect(ps: seq<Result<BuildRecord>>): (r: Result<Results>)
    decreases |ps|
  {
    if ps == [] then Ok(Results([], []))
    else
      var prev := Collect(ps[..|ps| - 1]);
      var p := ps[|ps| - 1];
      if prev.Err? then prev
      else if !Accepted(p) then Err(RecordError(p))
      else if p.value.result == "PASSED" then Ok(prev.value.(passes := prev.value.passes + [p.value]))
      else Ok(prev.value.(fails := prev.value.fails + [p.value]))
  }

  /** build_results() on the subjects of the build mails, in order. */
  function BuildResultsOf(subjects: seq<string>): Result<Results> {
    Collect(ParseAll(subjects))
  }

  /** The records of parsed subjects that are all accepted. */
  function Records(ps: seq<Result<BuildRecord>>): (r: seq<BuildRecord>)
    requires forall i :: 0 <= i < |ps| ==> Accepted(ps[i])
    ensures |r| == |ps| && forall i :: 0 <= i < |r| ==> ps[i] == Ok(r[i])
    decreases |ps|
  {
    if ps == [] then []
    else
      var init := ps[..|ps| - 1];
      assert forall i :: 0 <= i < |init| ==> init[i] == ps[i];
      assert Accepted(ps[|ps| - 1]);
      Records(init) + [ps[|ps| - 1].value]
  }

  /** The records with one result, in their original order. */
  function WithResult(recs: seq<BuildRecord>, result: string): (r: seq<BuildRecord>)
    ensures forall i :: 0 <= i < |r| ==> r[i].result == result && r[i] in recs
    ensures forall x :: x in recs && x.result == result ==> x in r
    decreases |recs|
  {
    if recs == [] then []
    else
      var last := recs[|recs| - 1];
      WithResult(recs[..|recs| - 1], result) + (if last.result == result then [last] else [])
  }

  /** Records that are all passes or fails split into the two without loss. */
  lemma {:induction false} WithResultPartition(recs: seq<BuildRecord>)
    requires forall i :: 0 <= i < |recs| ==> recs[i].result == "PASSED" || recs[i].result == "FAILED"
    ensures |WithResult(recs, "PASSED")| + |WithResult(recs, "FAILED")| == |recs|
    decreases |recs|
  {
    if recs != [] {
      WithResultPartition(recs[..|recs| - 1]);
    }
  }

  /** build_results() succeeds exactly when every subject is accepted. */
  lemma {:induction false} CollectOkIff(ps: seq<Result<BuildRecord>>)
    ensures Collect(ps).Ok? <==> forall i :: 0 <= i < |ps| ==> Accepted(ps[i])
    decreases |ps|
  {
    if ps != [] {
      var init := ps[..|ps| - 1];
      CollectOkIff(init);
      assert forall i :: 0 <= i < |init| ==> init[i] == ps[i];
    }
  }

  /**
   * On success, the passes and fails of build_results() are the PASSED and
   * FAILED records in arrival order, and together they account for every
   * subject.
   */
  lemma {:induction false} CollectPartition(ps: seq<Result<BuildRecord>>)
    requires forall i :: 0 <= i < |ps| ==> Accepted(ps[i])
    ensures var recs := Records(ps);
      Collect(ps) == Ok(Results(WithResult(recs, "PASSED"), WithResult(recs, "FAILED")))
    ensures |Collect(ps).value.passes| + |Collect(ps).value.fails| == |ps|
    decreases |ps|
  {
    var recs := Records(ps);
    if ps != [] {
      var init := ps[..|ps| - 1];
      assert forall i :: 0 <= i < |init| ==> init[i] == ps[i];
      CollectPartition(init);
      assert Records(init) == recs[..|recs| - 1];
      var last := recs[|recs| - 1];
      assert ps[|ps| - 1] == Ok(last);
      assert WithResult(recs, "PASSED") ==
        WithResult(Records(init), "PASSED") + (if last.result == "PASSED" then [last] else []);
      assert WithResult(recs, "FAILED") ==
        WithResult(Records(init), "FAILED") + (if last.result == "FAILED" then [last] else []);
      assert Accepted(ps[|ps| - 1]);
      var prev := Collect(init).value;
      if last.result == "PASSED" {
        assert WithResult(recs, "FAILED") == prev.fails;
        assert Collect(ps) == Ok(prev.(passes := prev.passes + [last]));
      } else {
        assert WithResult(recs, "PASSED") == prev.passes;
        assert Collect(ps) == Ok(prev.(fails := prev.fails + [last]));
      }
    }
    WithResultPartition(recs);
  }

  /** build_results() fails with the error of the first rejected subject. */
  lemma {:induction false} CollectFirstError(ps: seq<Result<BuildRecord>>, j: int)
    requires 0 <= j < |ps| && !Accepted(ps[j])
    requires forall i :: 0 <= i < j ==> Accepted(ps[i])
    ensures Collect(ps) == Err(RecordError(ps[j]))
    decreases |ps|
  {
    var init := ps[..|ps| - 1];
    if j < |ps| - 1 {
      assert init[j] == ps[j];
      assert forall i :: 0 <= i < j ==> init[i] == ps[i];
      CollectFirstError(init, j);
    } else {
      assert forall i :: 0 <= i < |init| ==> init[i] == ps[i];
      CollectOkIff(init);
    }
  }

  /**
   * The loop of build_results() over the parsed subjects: files passes and
   * failures, stopping at the first subject it cannot accept.
   */
  method CollectParsed(ps: seq<Result<BuildRecord>>) returns (r: Result<Results>)
    ensures r == Collect(ps)
  {
    var fails: seq<BuildRecord> := [];
    var passes: seq<BuildRecord> := [];
    var i := 0;
    while i < |ps|
      invariant 0 <= i <= |ps|
      invariant Collect(ps[..i]) == Ok(Results(passes, fails))
    {
      var p := ps[i];
      assert ps[..i + 1][..i] == ps[..i] && ps[..i + 1][i] == p;
      if p.Err? {
        CollectStops(ps, i + 1);
        return Err(p.msg);
      }
      var rec := p.value;
      if rec.result == "PASSED" {
        passes := passes + [rec];
      } else if rec.result == "FAILED" {
        fails := fails + [rec];
      } else {
        CollectStops(ps, i + 1);
        return Err(RecordError(p));
      }
      i := i + 1;
    }
    assert ps[..i] == ps;
    return Ok(Results(passes, fails));
  }

  /** build_results() on the subjects of the build mails. */
  method CollectSubjects(subjects: seq<string>) returns (r: Result<Results>)
    ensures r == BuildResultsOf(subjects)
  {
    r := CollectParsed(ParseAll(subjects));
  }

  /** Once build_results() has raised, the later subjects change nothing. */
  lemma {:induction false} CollectStops(ps: seq<Result<BuildRecord>>, k: nat)
    requires k <= |ps| && Collect(ps[..k]).Err?
    ensures Collect(ps) == Collect(ps[..k])
    decreases |ps| - k
  {
    if k < |ps| {
      var init := ps[..|ps| - 1];
      assert init[..k] == ps[..k];
      CollectStops(init, k);
    } else {
      assert ps[..k] == ps;
    }
  }

  /**
   * build_results() on subjects: it succeeds exactly when every subject is
   * accepted, and then fills passes and fails with all the records in order.
   */
  lemma BuildResultsOk(subjects: seq<string>)
    ensures BuildResultsOf(subjects).Ok? <==> forall i :: 0 <= i < |subjects| ==> Accepted(ParseRecord(subjects[i]))
    ensures BuildResultsOf(subjects).Ok? ==>
      var recs := Records(ParseAll(subjects));
      && BuildResultsOf(subjects).value == Results(WithResult(recs, "PASSED"), WithResult(recs, "FAILED"))
      && |BuildResultsOf(subjects).value.passes| + |BuildResultsOf(subjects).value.fails| == |subjects|
  {
    var ps := ParseAll(subjects);
    CollectOkIff(ps);
    if Collect(ps).Ok? {
      CollectPartition(ps);
    }
  }

  /**
   * A well-shaped subject whose result is neither PASSED nor FAILED, after
   * accepted ones, makes build_results() raise the KeyError of its faulty
   * message expression instead of the intended 'invalid build result' error.
   */
  lemma UnknownResultRaisesKeyError(subjects: seq<string>, j: int)
    requires 0 <= j < |subjects| && forall i :: 0 <= i < j ==> Accepted(ParseRecord(subjects[i]))
    requires ParseRecord(subjects[j]).Ok?
    requires ParseRecord(subjects[j]).value.result != "PASSED" && ParseRecord(subjects[j]).value.result != "FAILED"
    ensures BuildResultsOf(subjects) == Err(ArchiveCache.KeyError("results"))
  {
    CollectFirstError(ParseAll(subjects), j);
  }

  /**
   * A subject written as 'Build <host>: <result> <arch> <word> <os> ...' is
   * read back into exactly those host, result, architecture and OS.
   */
  lemma ParseWellFormed(host: string, words: seq<string>)
    requires ':' !in host && (host == [] || (!Text.IsSpace(host[0]) && !Text.IsSpace(host[|host| - 1])))
    requires |words| >= 4 && forall i :: 0 <= i < |words| ==> words[i] != [] && Text.NoSpace(words[i]) && ':' !in words[i]
    ensures ParseRecord("Build " + host + ":" + Text.Spaced(words)) ==
      Ok(BuildRecord(words[0], host, words[3], words[1]))
  {
    var left, right := "Build " + host, Text.Spaced(words);
    SpacedNoColon(words);
    SplitAtColon(left, right);
    Text.WordsSpaced(words);
    ParseRecordOf(left, right);
    assert DropPrefix(left, 6) == host by {
      assert left[6..] == host;
    }
    assert Text.Strip(host) == host;
    assert "Build " + host + ":" + right == left + ":" + right;
  }

  /** Splitting on ':' the text around one ':' gives back the two sides. */
  lemma SplitAtColon(left: string, right: string)
    requires ':' !in left && ':' !in right
    ensures Text.Split(left + ":" + right, ':') == [left, right]
  {
    assert Text.Join([left, right], ':') == left + ":" + right;
    Text.SplitJoin([left, right], ':');
  }

  lemma ParseRecordOf(left: string, right: string)
    requires Text.Split(left + ":" + right, ':') == [left, right] && |Text.Words(right)| >= 4
    ensures var ws := Text.Words(right);
      ParseRecord(left + ":" + right) == Ok(BuildRecord(ws[0], Text.Strip(DropPrefix(left, 6)), ws[3], ws[1]))
  {
  }

  lemma {:induction false} SpacedNoColon(ws: seq<string>)
    requires forall i :: 0 <= i < |ws| ==> ':' !in ws[i]
    ensures ':' !in Text.Spaced(ws)
    decreases |ws|
  {
    if ws != [] {
      SpacedNoColon(ws[1..]);
    }
  }
}
