/**
 * The mailbox of one month and its classification: class emails of
 * status/builds.py. A mailbox is the sequence of its messages, each reduced
 * to the three headers the program reads.
 */
module Mail {
  import opened Wrappers
  import Text
  import BuildResults

  /** One mail: its Message-ID, From and Subject headers. */
  datatype Message = Message(mid: string, sender: string, subject: string)

  /** The four buckets of message IDs. */
  datatype Category = Builds | Tests | BspBuilds | Unknown

  const BuildPrefix: string := "Build "
  const TestPrefix: string := "[rtems-test] "
  const BspPrefix: string := "[rtems-bsp-builder] "

  predicate StartsWith(s: string, prefix: string) {
    |prefix| <= |s| && s[..|prefix|] == prefix
  }

  /** The subject of a message with the line separators removed. */
  function Subject(m: Message): (r: string)
    ensures '\n' !in r
    ensures '\n' !in m.subject ==> r == m.subject
  {
    Text.RemoveChar(m.subject, '\n')
  }

  /** The bucket of a subject: the first prefix it starts with decides. */
  function Classify(subject: string): Category {
    if StartsWith(subject, BuildPrefix) then Builds
    else if StartsWith(subject, TestPrefix) then Tests
    else if StartsWith(subject, BspPrefix) then BspBuilds
    else Unknown
  }

  /**
   * No subject starts with two of the prefixes, so the order in which they
   * are tried does not matter: each bucket holds exactly the subjects with
   * its prefix.
   */
  lemma ClassifyByPrefix(subject: string)
    ensures Classify(subject) == Builds <==> StartsWith(subject, BuildPrefix)
    ensures Classify(subject) == Tests <==> StartsWith(subject, TestPrefix)
    ensures Classify(subject) == BspBuilds <==> StartsWith(subject, BspPrefix)
    ensures Classify(subject) == Unknown <==>
      !StartsWith(subject, BuildPrefix) && !StartsWith(subject, TestPrefix) && !StartsWith(subject, BspPrefix)
  {
    if StartsWith(subject, BuildPrefix) {
      assert subject[0] == 'B';
    }
    if StartsWith(subject, TestPrefix) {
      assert subject[0] == '[' && subject[7] == 't';
    }
    if StartsWith(subject, BspPrefix) {
      assert subject[0] == '[' && subject[7] == 'b';
    }
  }

  /** The dictionary self.data: the messages by ID, the IDs by sender and the four buckets. */
  datatype MailData = MailData(
    messages: map<string, Message>,
    bySender: map<string, seq<string>>,
    builds: seq<string>,
    tests: seq<string>,
    bspBuilds: seq<string>,
    unknown: seq<string>)
  {
    function Bucket(c: Category): seq<string> {
      match c
      case Builds => builds
      case Tests => tests
      case BspBuilds => bspBuilds
      case Unknown => unknown
    }

    /** The IDs recorded for a sender, none if it has no entry. */
    function FromSender(sender: string): seq<string> {
      if sender in bySender then bySender[sender] else []
    }

    /** Every ID in ids is that of a stored message whose subject belongs in bucket c. */
    ghost predicate Filed(ids: seq<string>, c: Category) {
      forall i :: 0 <= i < |ids| ==> ids[i] in messages && Classify(Subject(messages[ids[i]])) == c
    }

    /**
     * What parsing keeps true: every message is stored under its own ID,
     * every ID in a bucket is that of a stored message whose subject belongs
     * there, and every ID listed for a sender is a stored message from it.
     */
    ghost predicate Valid() {
      && (forall mid :: mid in messages ==> messages[mid].mid == mid)
      && Filed(builds, Builds) && Filed(tests, Tests) && Filed(bspBuilds, BspBuilds) && Filed(unknown, Unknown)
      && (forall s, mid :: s in bySender && mid in bySender[s] ==>
            mid in messages && messages[mid].sender == s)
    }

    lemma InBucket(c: Category, mid: string)
      requires Valid() && mid in Bucket(c)
      ensures mid in messages && Classify(Subject(messages[mid])) == c
    {
      var i :| 0 <= i < |Bucket(c)| && Bucket(c)[i] == mid;
    }
  }

  const Empty: MailData := MailData(map[], map[], [], [], [], [])

  /** _add_mid(bucket, key, mid): appends mid to the list under key, creating it if needed. */
  function AddMid(bucket: map<string, seq<string>>, key: string, mid: string): (r: map<string, seq<string>>)
    ensures r.Keys == bucket.Keys + {key}
    ensures r[key] == (if key in bucket then bucket[key] else []) + [mid]
    ensures forall k :: k in bucket && k != key ==> r[k] == bucket[k]
  {
    bucket[key := (if key in bucket then bucket[key] else []) + [mid]]
  }

  /** _get_message(mid). */
  function GetMessage(d: MailData, mid: string): (r: Result<Message>)
    ensures r.Ok? <==> mid in d.messages
    ensures r.Ok? ==> r.value == d.messages[mid]
    ensures r.Err? ==> r.msg == "message not found: " + mid
  {
    if mid !in d.messages then Err("message not found: " + mid) else Ok(d.messages[mid])
  }

  /** _get_subject(mid). */
  function GetSubject(d: MailData, mid: string): (r: Result<string>)
    ensures r.Ok? <==> mid in d.messages
    ensures r.Ok? ==> '\n' !in r.value && r.value == Subject(d.messages[mid])
    ensures r.Err? ==> r.msg == "message not found: " + mid
  {
    var m :- GetMessage(d, mid);
    Ok(Subject(m))
  }

  function Duplicate(mid: string): string {
    "duplicate message is: " + mid
  }

  function AddToBucket(d: MailData, c: Category, mid: string): (r: MailData)
    ensures r.messages == d.messages && r.bySender == d.bySender
    ensures forall k :: r.Bucket(k) == d.Bucket(k) + (if k == c then [mid] else [])
  {
    match c
    case Builds => d.(builds := d.builds + [mid])
    case Tests => d.(tests := d.tests + [mid])
    case BspBuilds => d.(bspBuilds := d.bspBuilds + [mid])
    case Unknown => d.(unknown := d.unknown + [mid])
  }

  /** One pass of the loop of parse(): a duplicate ID stops it with the data as it was. */
  function Step(d: MailData, m: Message): (r: (Outcome, MailData))
    ensures m.mid in d.messages ==> r == (Fail(Duplicate(m.mid)), d)
    ensures m.mid !in d.messages ==>
      && r.0 == Pass
      && r.1.messages == d.messages[m.mid := m]
      && r.1.bySender == AddMid(d.bySender, m.sender, m.mid)
  {
    if m.mid in d.messages then (Fail(Duplicate(m.mid)), d)
    else
      var d1 := d.(messages := d.messages[m.mid := m], bySender := AddMid(d.bySender, m.sender, m.mid));
      (Pass, AddToBucket(d1, Classify(Subject(m)), m.mid))
  }

  /** parse() over the messages of a mailbox, starting from d. */
  function ParseRun(d: MailData, msgs: seq<Message>): (Outcome, MailData)
    decreases |msgs|
  {
    if msgs == [] then (Pass, d)
    else
      var prev := ParseRun(d, msgs[..|msgs| - 1]);
      if prev.0.Fail? then prev else Step(prev.1, msgs[|msgs| - 1])
  }

  /** The IDs of the messages, in order. */
  function Mids(msgs: seq<Message>): (r: seq<string>)
    ensures |r| == |msgs| && forall i :: 0 <= i < |msgs| ==> r[i] == msgs[i].mid
    decreases |msgs|
  {
    if msgs == [] then []
    else
      var init := msgs[..|msgs| - 1];
      assert forall i :: 0 <= i < |init| ==> init[i] == msgs[i];
      Mids(init) + [msgs[|msgs| - 1].mid]
  }

  /** Each message's ID is neither stored in d nor that of an earlier message. */
  predicate Fresh(d: MailData, msgs: seq<Message>)
    decreases |msgs|
  {
    msgs == [] ||
      var init, last := msgs[..|msgs| - 1], msgs[|msgs| - 1];
      Fresh(d, init) && last.mid !in d.messages && last.mid !in Mids(init)
  }

  /** Fresh messages are those with pairwise distinct IDs none of which is stored. */
  lemma {:induction false} FreshIff(d: MailData, msgs: seq<Message>)
    ensures Fresh(d, msgs) <==>
      && (forall i, j :: 0 <= i < j < |msgs| ==> msgs[i].mid != msgs[j].mid)
      && (forall i :: 0 <= i < |msgs| ==> msgs[i].mid !in d.messages)
    decreases |msgs|
  {
    if msgs != [] {
      var init, last := msgs[..|msgs| - 1], msgs[|msgs| - 1];
      FreshIff(d, init);
      assert forall i :: 0 <= i < |init| ==> init[i] == msgs[i];
      if last.mid in Mids(init) {
        var i :| 0 <= i < |init| && Mids(init)[i] == last.mid;
        assert msgs[i].mid == msgs[|msgs| - 1].mid;
      }
    }
  }

  /** The IDs of the messages of one category, in arrival order. */
  function IdsIn(msgs: seq<Message>, c: Category): (r: seq<string>)
    ensures |r| <= |msgs|
    decreases |msgs|
  {
    if msgs == [] then []
    else
      var last := msgs[|msgs| - 1];
      IdsIn(msgs[..|msgs| - 1], c) + (if Classify(Subject(last)) == c then [last.mid] else [])
  }

  /** The IDs of the messages from one sender, in arrival order. */
  function IdsFrom(msgs: seq<Message>, sender: string): (r: seq<string>)
    ensures |r| <= |msgs|
    decreases |msgs|
  {
    if msgs == [] then []
    else
      var last := msgs[|msgs| - 1];
      IdsFrom(msgs[..|msgs| - 1], sender) + (if last.sender == sender then [last.mid] else [])
  }

  /** Every message ID lands in exactly one of the four buckets. */
  lemma {:induction false} IdsInPartition(msgs: seq<Message>)
    ensures |IdsIn(msgs, Builds)| + |IdsIn(msgs, Tests)| + |IdsIn(msgs, BspBuilds)| + |IdsIn(msgs, Unknown)| == |msgs|
    decreases |msgs|
  {
    if msgs != [] {
      IdsInPartition(msgs[..|msgs| - 1]);
    }
  }

  /**
   * A completed parse() stores each message under its ID and leaves the
   * messages stored before alone.
   */
  lemma {:induction false} ParseRunMessages(d: MailData, msgs: seq<Message>)
    requires ParseRun(d, msgs).0 == Pass
    ensures var r := ParseRun(d, msgs).1;
      && (forall mid :: mid in r.messages <==> mid in d.messages || mid in Mids(msgs))
      && (forall mid :: mid in d.messages ==> r.messages[mid] == d.messages[mid])
    decreases |msgs|
  {
    if msgs != [] {
      var init, m := msgs[..|msgs| - 1], msgs[|msgs| - 1];
      var prev := ParseRun(d, init);
      assert prev.0 == Pass && m.mid !in prev.1.messages;
      ParseRunMessages(d, init);
      var r := ParseRun(d, msgs).1;
      assert r.messages == prev.1.messages[m.mid := m];
      assert Mids(msgs) == Mids(init) + [m.mid];
      forall mid ensures mid in r.messages <==> mid in d.messages || mid in Mids(msgs) {
        assert mid in Mids(msgs) <==> mid in Mids(init) || mid == m.mid;
      }
    }
  }

  /** A completed parse() appends each ID to the bucket of its subject, in arrival order. */
  lemma {:induction false} ParseRunBuckets(d: MailData, msgs: seq<Message>, c: Category)
    requires ParseRun(d, msgs).0 == Pass
    ensures ParseRun(d, msgs).1.Bucket(c) == d.Bucket(c) + IdsIn(msgs, c)
    decreases |msgs|
  {
    if msgs != [] {
      var init, m := msgs[..|msgs| - 1], msgs[|msgs| - 1];
      var prev := ParseRun(d, init);
      assert prev.0 == Pass && ParseRun(d, msgs) == Step(prev.1, m);
      ParseRunBuckets(d, init, c);
      StepBucket(prev.1, m, c);
      var added := if Classify(Subject(m)) == c then [m.mid] else [];
      assert IdsIn(msgs, c) == IdsIn(init, c) + added;
      assert d.Bucket(c) + IdsIn(init, c) + added == d.Bucket(c) + (IdsIn(init, c) + added);
    }
  }

  /** A step that files a message appends its ID to the bucket of its subject and to no other. */
  lemma StepBucket(d: MailData, m: Message, c: Category)
    requires m.mid !in d.messages
    ensures Step(d, m).1.Bucket(c) == d.Bucket(c) + (if Classify(Subject(m)) == c then [m.mid] else [])
  {
  }

  /** A completed parse() appends each ID to the list of its sender, in arrival order. */
  lemma {:induction false} ParseRunSenders(d: MailData, msgs: seq<Message>, sender: string)
    requires ParseRun(d, msgs).0 == Pass
    ensures ParseRun(d, msgs).1.FromSender(sender) == d.FromSender(sender) + IdsFrom(msgs, sender)
    ensures sender in ParseRun(d, msgs).1.bySender <==> sender in d.bySender || IdsFrom(msgs, sender) != []
    decreases |msgs|
  {
    if msgs != [] {
      var init, m := msgs[..|msgs| - 1], msgs[|msgs| - 1];
      ParseRunSenders(d, init, sender);
      var prev := ParseRun(d, init).1;
      assert m.mid !in prev.messages;
      assert ParseRun(d, msgs).1.bySender == AddMid(prev.bySender, m.sender, m.mid);
      assert IdsFrom(msgs, sender) == IdsFrom(init, sender) + (if m.sender == sender then [m.mid] else []);
    }
  }

  /** parse() completes exactly when the messages are fresh. */
  lemma {:induction false} ParseRunOkIff(d: MailData, msgs: seq<Message>)
    ensures ParseRun(d, msgs).0 == Pass <==> Fresh(d, msgs)
    decreases |msgs|
  {
    if msgs != [] {
      var init := msgs[..|msgs| - 1];
      ParseRunOkIff(d, init);
      if ParseRun(d, init).0 == Pass {
        ParseRunMessages(d, init);
      }
    }
  }

  /** Once parse() has stopped, the later messages change nothing. */
  lemma {:induction false} ParseRunStops(d: MailData, msgs: seq<Message>, k: nat)
    requires k <= |msgs| && ParseRun(d, msgs[..k]).0.Fail?
    ensures ParseRun(d, msgs) == ParseRun(d, msgs[..k])
    decreases |msgs| - k
  {
    if k < |msgs| {
      var init := msgs[..|msgs| - 1];
      assert init[..k] == msgs[..k];
      ParseRunStops(d, init, k);
    } else {
      assert msgs[..k] == msgs;
    }
  }

  /**
   * On a repeated or already stored ID, parse() raises for the first such
   * message and keeps what the messages before it added.
   */
  lemma ParseRunFirstDuplicate(d: MailData, msgs: seq<Message>, j: nat)
    requires j < |msgs| && Fresh(d, msgs[..j]) && !Fresh(d, msgs[..j + 1])
    ensures ParseRun(d, msgs) == (Fail(Duplicate(msgs[j].mid)), ParseRun(d, msgs[..j]).1)
  {
    var pre := msgs[..j + 1];
    assert pre[..j] == msgs[..j] && pre[j] == msgs[j];
    ParseRunOkIff(d, msgs[..j]);
    ParseRunMessages(d, msgs[..j]);
    var prev := ParseRun(d, msgs[..j]).1;
    assert msgs[j].mid in prev.messages;
    assert ParseRun(d, pre) == (Fail(Duplicate(msgs[j].mid)), prev);
    ParseRunStops(d, msgs, j + 1);
  }

  /** Storing a new message and filing its ID keeps every bucket filed. */
  lemma StepFiled(d: MailData, m: Message, c: Category)
    requires d.Valid() && m.mid !in d.messages
    ensures Step(d, m).1.Filed(Step(d, m).1.Bucket(c), c)
  {
    var r := Step(d, m).1;
    var ids := d.Bucket(c);
    assert d.Filed(ids, c) by {
      match c
      case Builds =>
      case Tests =>
      case BspBuilds =>
      case Unknown =>
    }
    assert r.messages == d.messages[m.mid := m];
    assert r.Bucket(c) == ids + (if Classify(Subject(m)) == c then [m.mid] else []);
    forall i | 0 <= i < |r.Bucket(c)|
      ensures r.Bucket(c)[i] in r.messages && Classify(Subject(r.messages[r.Bucket(c)[i]])) == c
    {
      if i < |ids| {
        assert r.Bucket(c)[i] == ids[i];
      }
    }
  }

  lemma StepSenders(d: MailData, m: Message)
    requires d.Valid() && m.mid !in d.messages
    ensures var r := Step(d, m).1;
      forall s, mid :: s in r.bySender && mid in r.bySender[s] ==> mid in r.messages && r.messages[mid].sender == s
  {
    var r := Step(d, m).1;
    forall s, mid | s in r.bySender && mid in r.bySender[s]
      ensures mid in r.messages && r.messages[mid].sender == s
    {
      if mid != m.mid {
        assert s in d.bySender && mid in d.bySender[s];
      }
    }
  }

  /** Each step of parse() keeps the data valid. */
  lemma StepValid(d: MailData, m: Message)
    requires d.Valid()
    ensures Step(d, m).1.Valid()
  {
    if m.mid !in d.messages {
      var r := Step(d, m).1;
      StepFiled(d, m, Builds);
      StepFiled(d, m, Tests);
      StepFiled(d, m, BspBuilds);
      StepFiled(d, m, Unknown);
      StepSenders(d, m);
      assert r.Bucket(Builds) == r.builds && r.Bucket(Tests) == r.tests;
      assert r.Bucket(BspBuilds) == r.bspBuilds && r.Bucket(Unknown) == r.unknown;
    }
  }

  lemma {:induction false} ParseRunValid(d: MailData, msgs: seq<Message>)
    requires d.Valid()
    ensures ParseRun(d, msgs).1.Valid()
    decreases |msgs|
  {
    if msgs != [] {
      ParseRunValid(d, msgs[..|msgs| - 1]);
      StepValid(ParseRun(d, msgs[..|msgs| - 1]).1, msgs[|msgs| - 1]);
    }
  }

  lemma {:induction false} IdsInHas(msgs: seq<Message>, i: int)
    requires 0 <= i < |msgs|
    ensures msgs[i].mid in IdsIn(msgs, Classify(Subject(msgs[i])))
    decreases |msgs|
  {
    if i < |msgs| - 1 {
      var init := msgs[..|msgs| - 1];
      assert init[i] == msgs[i];
      IdsInHas(init, i);
    }
  }

  lemma {:induction false} IdsInMember(msgs: seq<Message>, c: Category, mid: string)
    requires mid in IdsIn(msgs, c)
    ensures exists k :: 0 <= k < |msgs| && msgs[k].mid == mid && Classify(Subject(msgs[k])) == c
    decreases |msgs|
  {
    var init, last := msgs[..|msgs| - 1], msgs[|msgs| - 1];
    if mid in IdsIn(init, c) {
      IdsInMember(init, c, mid);
      var k :| 0 <= k < |init| && init[k].mid == mid && Classify(Subject(init[k])) == c;
      assert msgs[k] == init[k];
    } else {
      assert msgs[|msgs| - 1] == last;
    }
  }

  lemma {:induction false} IdsInMids(msgs: seq<Message>, c: Category, mid: string)
    requires mid in IdsIn(msgs, c)
    ensures mid in Mids(msgs)
    decreases |msgs|
  {
    var init := msgs[..|msgs| - 1];
    assert Mids(msgs) == Mids(init) + [msgs[|msgs| - 1].mid];
    if mid in IdsIn(init, c) {
      IdsInMids(init, c, mid);
    }
  }

  /** Among fresh messages, an ID is listed for a category exactly when its subject selects it. */
  lemma {:induction false} IdsInExact(d: MailData, msgs: seq<Message>, i: int, c: Category)
    requires Fresh(d, msgs) && 0 <= i < |msgs|
    ensures msgs[i].mid in IdsIn(msgs, c) <==> c == Classify(Subject(msgs[i]))
    decreases |msgs|
  {
    var init, last := msgs[..|msgs| - 1], msgs[|msgs| - 1];
    if i == |msgs| - 1 {
      if last.mid in IdsIn(init, c) {
        IdsInMids(init, c, last.mid);
      }
    } else {
      assert init[i] == msgs[i];
      assert Mids(init)[i] == msgs[i].mid;
      IdsInExact(d, init, i, c);
    }
  }

  /**
   * Parsing a mailbox with distinct IDs from empty data puts each message ID
   * into the one bucket its subject selects and into no other.
   */
  lemma ExactlyOneBucket(msgs: seq<Message>, i: int, c: Category)
    requires Fresh(Empty, msgs) && 0 <= i < |msgs|
    ensures msgs[i].mid in ParseRun(Empty, msgs).1.Bucket(c) <==> c == Classify(Subject(msgs[i]))
  {
    ParseRunOkIff(Empty, msgs);
    ParseRunBuckets(Empty, msgs, c);
    IdsInExact(Empty, msgs, i, c);
  }

  /** After parsing a mailbox, there are unknowns exactly when some subject matches no prefix. */
  lemma HasUnknownsAfterParse(msgs: seq<Message>)
    requires Fresh(Empty, msgs)
    ensures |ParseRun(Empty, msgs).1.unknown| != 0 <==> exists i :: 0 <= i < |msgs| && Classify(Subject(msgs[i])) == Unknown
  {
    ParseRunOkIff(Empty, msgs);
    ParseRunBuckets(Empty, msgs, Unknown);
    var ids := ParseRun(Empty, msgs).1.unknown;
    assert ids == IdsIn(msgs, Unknown);
    if exists i :: 0 <= i < |msgs| && Classify(Subject(msgs[i])) == Unknown {
      var i :| 0 <= i < |msgs| && Classify(Subject(msgs[i])) == Unknown;
      IdsInHas(msgs, i);
    }
    if ids != [] {
      IdsInMember(msgs, Unknown, ids[0]);
    }
  }

  /** The subjects of stored messages, in the order of their IDs. */
  function Subjects(d: MailData, mids: seq<string>): (r: seq<string>)
    requires forall i :: 0 <= i < |mids| ==> mids[i] in d.messages
    ensures |r| == |mids| && forall i :: 0 <= i < |mids| ==> r[i] == Subject(d.messages[mids[i]])
  {
    seq(|mids|, i requires 0 <= i < |mids| && mids[i] in d.messages => Subject(d.messages[mids[i]]))
  }

  /** The mailbox of one month. */
  class Emails {
    const month: string
    const mbox: seq<Message>
    var data: MailData

    ghost predicate Valid()
      reads this
    {
      data.Valid()
    }

    constructor(month: string, mbox: seq<Message>)
      ensures this.month == month && this.mbox == mbox && data == Empty && Valid()
    {
      this.month := month;
      this.mbox := mbox;
      data := Empty;
    }

    /** parse(): classifies every message of the mailbox, in order. */
    method Parse() returns (r: Outcome)
      requires Valid()
      modifies this`data
      ensures (r, data) == ParseRun(old(data), mbox)
      ensures Valid()
    {
      ghost var start := data;
      var i := 0;
      while i < |mbox|
        invariant 0 <= i <= |mbox|
        invariant ParseRun(start, mbox[..i]) == (Pass, data)
      {
        var m := mbox[i];
        assert ParseRun(start, mbox[..i + 1]) == Step(data, m) by {
          assert mbox[..i + 1][..i] == mbox[..i];
        }
        if m.mid in data.messages {
          ParseRunStops(start, mbox, i + 1);
          ParseRunValid(start, mbox[..i]);
          return Fail(Duplicate(m.mid));
        }
        File(m);
        i := i + 1;
      }
      assert mbox[..i] == mbox;
      ParseRunValid(start, mbox);
      return Pass;
    }

    /** The body of the loop of parse() for a message with a new ID. */
    method File(m: Message)
      requires m.mid !in data.messages
      modifies this`data
      ensures (Pass, data) == Step(old(data), m)
    {
      data := data.(messages := data.messages[m.mid := m]);
      var subject := Subject(m);
      data := data.(bySender := AddMid(data.bySender, m.sender, m.mid));
      if StartsWith(subject, BuildPrefix) {
        data := data.(builds := data.builds + [m.mid]);
      } else if StartsWith(subject, TestPrefix) {
        data := data.(tests := data.tests + [m.mid]);
      } else if StartsWith(subject, BspPrefix) {
        data := data.(bspBuilds := data.bspBuilds + [m.mid]);
      } else {
        data := data.(unknown := data.unknown + [m.mid]);
      }
    }

    /** build_results(): the records of the subjects of the build mails. */
    method GetBuildResults() returns (r: Result<BuildResults.Results>)
      requires Valid()
      ensures r == BuildResults.BuildResultsOf(Subjects(data, data.builds))
    {
      var subjects := Subjects(data, data.builds);
      r := BuildResults.CollectSubjects(subjects);
    }

    /** has_unknowns(). */
    predicate HasUnknowns()
      reads this
    {
      |data.unknown| != 0
    }

    /** list_unknowns(): the subjects of the messages no prefix matched. */
    method ListUnknowns() returns (r: seq<string>)
      requires Valid()
      ensures r == Subjects(data, data.unknown)
      ensures forall i :: 0 <= i < |r| ==> Classify(r[i]) == Unknown && '\n' !in r[i]
    {
      r := [];
      var i := 0;
      while i < |data.unknown|
        invariant 0 <= i <= |data.unknown|
        invariant r == Subjects(data, data.unknown[..i])
      {
        assert data.unknown[i] in data.messages;
        var s := GetSubject(data, data.unknown[i]);
        r := r + [s.value];
        i := i + 1;
      }
      assert data.unknown[..i] == data.unknown;
    }
  }
}
