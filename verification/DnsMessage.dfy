/** Whole DNS messages: the header and four sections of records. */
module DnsMessage {
  import opened Bytes
  import opened DnsNameExact
  import opened DnsRecord
  import opened DnsRecordExact
  import opened SendMedium

  datatype Message = Message(
    header: Header, queries: seq<Record>, ans: seq<Record>, ansAuth: seq<Record>, ansAddit: seq<Record>)

  predicate AllOf(rs: seq<Record>, question: bool) {
    forall r :: r in rs ==> r.Question? == question
  }

  /** Queries in the first section, resource records in the others: in the source, the lists' types. */
  predicate Typed(m: Message) {
    AllOf(m.queries, true) && AllOf(m.ans, false) && AllOf(m.ansAuth, false) && AllOf(m.ansAddit, false)
  }

  // ---------- writing ----------

  predicate AllHaveData(rs: seq<Record>) {
    forall r :: r in rs ==> HasData(r)
  }

  function RecordsImage(rs: seq<Record>): seq<byte>
    requires AllHaveData(rs)
  {
    if rs == [] then []
    else
      var init := rs[..|rs| - 1];
      assert forall r :: r in init ==> r in rs;
      RecordsImage(init) + RecordImage(rs[|rs| - 1])
  }

  lemma RecordsImageStep(rs: seq<Record>, i: nat)
    requires i < |rs| && AllHaveData(rs)
    ensures AllHaveData(rs[..i]) && AllHaveData(rs[..i + 1])
    ensures RecordsImage(rs[..i + 1]) == RecordsImage(rs[..i]) + RecordImage(rs[i])
  {
    assert rs[..i + 1][..i] == rs[..i];
  }

  lemma {:induction false} RecordsImageBound(rs: seq<Record>, i: nat)
    requires i <= |rs| && AllHaveData(rs)
    ensures AllHaveData(rs[..i]) && |RecordsImage(rs[..i])| <= |RecordsImage(rs)|
    decreases |rs| - i
  {
    if i < |rs| {
      RecordsImageStep(rs, i);
      RecordsImageBound(rs, i + 1);
    } else {
      assert rs[..i] == rs;
    }
  }

  method WriteQueries(dest: array<byte>, at: nat, qs: seq<Record>) returns (cnt: nat)
    requires AllHaveData(qs) && AllOf(qs, true) && at + |RecordsImage(qs)| <= dest.Length
    modifies dest
    ensures cnt == |RecordsImage(qs)|
    ensures dest[..at + cnt] == old(dest[..at]) + RecordsImage(qs)
    ensures forall i :: at + cnt <= i < dest.Length ==> dest[i] == old(dest[i])
  {
    hide RecordImage;
    cnt := 0;
    ghost var before := dest[..at];
    for i := 0 to |qs|
      invariant AllHaveData(qs[..i]) && cnt == |RecordsImage(qs[..i])| <= |RecordsImage(qs)|
      invariant dest[..at + cnt] == before + RecordsImage(qs[..i])
      invariant forall j :: at + cnt <= j < dest.Length ==> dest[j] == old(dest[j])
    {
      RecordsImageStep(qs, i);
      RecordsImageBound(qs, i + 1);
      ConcatAssoc(before, RecordsImage(qs[..i]), RecordImage(qs[i]));
      var c := WriteQuery(dest, at + cnt, qs[i]);
      cnt := cnt + c;
    }
    assert qs[..|qs|] == qs;
  }

  method WriteAnswers(dest: array<byte>, at: nat, rs: seq<Record>) returns (cnt: nat)
    requires AllHaveData(rs) && AllOf(rs, false) && at + |RecordsImage(rs)| <= dest.Length
    modifies dest
    ensures cnt == |RecordsImage(rs)|
    ensures dest[..at + cnt] == old(dest[..at]) + RecordsImage(rs)
    ensures forall i :: at + cnt <= i < dest.Length ==> dest[i] == old(dest[i])
  {
    hide RecordImage;
    cnt := 0;
    ghost var before := dest[..at];
    for i := 0 to |rs|
      invariant AllHaveData(rs[..i]) && cnt == |RecordsImage(rs[..i])| <= |RecordsImage(rs)|
      invariant dest[..at + cnt] == before + RecordsImage(rs[..i])
      invariant forall j :: at + cnt <= j < dest.Length ==> dest[j] == old(dest[j])
    {
      RecordsImageStep(rs, i);
      RecordsImageBound(rs, i + 1);
      ConcatAssoc(before, RecordsImage(rs[..i]), RecordImage(rs[i]));
      var c := WriteAnswer(dest, at + cnt, rs[i]);
      cnt := cnt + c;
    }
    assert rs[..|rs|] == rs;
  }

  predicate Writable(m: Message) {
    && ShiftsDefined(m.header) && Typed(m)
    && AllHaveData(m.queries) && AllHaveData(m.ans) && AllHaveData(m.ansAuth) && AllHaveData(m.ansAddit)
  }

  predicate CountsMatch(m: Message) {
    && m.header.queryCount == |m.queries| && m.header.ansCount == |m.ans|
    && m.header.authCount == |m.ansAuth| && m.header.addCount == |m.ansAddit|
  }

  function Image(m: Message): seq<byte>
    requires Writable(m)
  {
    HeaderImage(m.header) + RecordsImage(m.queries) + RecordsImage(m.ans)
    + RecordsImage(m.ansAuth) + RecordsImage(m.ansAddit)
  }

  lemma {:induction false} RecordsImageConcat(a: seq<Record>, b: seq<Record>)
    requires AllHaveData(a) && AllHaveData(b)
    ensures AllHaveData(a + b) && RecordsImage(a + b) == RecordsImage(a) + RecordsImage(b)
    decreases |b|
  {
    hide RecordImage;
    if b == [] {
      assert a + b == a;
    } else {
      var init, last := b[..|b| - 1], b[|b| - 1];
      RecordsImageConcat(a, init);
      assert (a + b)[..|a + b| - 1] == a + init;
      ConcatAssoc(RecordsImage(a), RecordsImage(init), RecordImage(last));
    }
  }

  /**
    RFC 1035, section 4.1: the header, then the questions, the answers, the authority records and the
    additional ones, each record behind the one before.
   */
  lemma ImageInOrder(m: Message, i: nat)
    requires Writable(m)
    ensures var all := m.queries + m.ans + m.ansAuth + m.ansAddit;
      && AllHaveData(all) && Image(m) == HeaderImage(m.header) + RecordsImage(all)
      && (i < |all| ==>
            RecordsImage(all) == RecordsImage(all[..i]) + RecordImage(all[i]) + RecordsImage(all[i + 1..]))
  {
    hide RecordsImage, HeaderImage, RecordImage;
    var a, b, c, d := m.queries, m.ans, m.ansAuth, m.ansAddit;
    RecordsImageConcat(a, b);
    RecordsImageConcat(a + b, c);
    RecordsImageConcat(a + b + c, d);
    var h, qa, au, ad := HeaderImage(m.header), RecordsImage(a + b), RecordsImage(c), RecordsImage(d);
    ConcatAssoc(h, RecordsImage(a), RecordsImage(b));
    ConcatAssoc(h, qa, au);
    ConcatAssoc(h, qa + au, ad);
    var all := a + b + c + d;
    if i < |all| {
      RecordsImageStep(all, i);
      assert all == all[..i + 1] + all[i + 1..];
      RecordsImageConcat(all[..i + 1], all[i + 1..]);
    }
  }

  /** How far the writer gets: up to the first count that does not match its list. */
  function Stored(m: Message): (n: nat)
    requires Writable(m)
    ensures CountsMatch(m) ==> n == |Image(m)|
  {
    HEADER_SIZE
    + if m.header.queryCount != |m.queries| then 0
      else |RecordsImage(m.queries)|
           + if m.header.ansCount != |m.ans| then 0
             else |RecordsImage(m.ans)|
                  + if m.header.authCount != |m.ansAuth| then 0
                    else |RecordsImage(m.ansAuth)|
                         + if m.header.addCount != |m.ansAddit| then 0 else |RecordsImage(m.ansAddit)|
  }

  /** `None` is the throw at a count that does not match its list: the program ends there. */
  method WriteMessage(dest: array<byte>, m: Message) returns (r: Option<nat>)
    requires Writable(m) && Stored(m) <= dest.Length
    modifies dest
    ensures r == if CountsMatch(m) then Some(|Image(m)|) else None
    ensures CountsMatch(m) ==> dest[..|Image(m)|] == Image(m)
    ensures forall i :: Stored(m) <= i < dest.Length ==> dest[i] == old(dest[i])
  {
    hide RecordsImage, HeaderImage;
    var curr := WriteHeader(dest, m.header);
    if m.header.queryCount != |m.queries| {
      return None;
    }
    var cnt := WriteQueries(dest, curr, m.queries);
    curr := curr + cnt;
    if m.header.ansCount != |m.ans| {
      return None;
    }
    cnt := WriteAnswers(dest, curr, m.ans);
    curr := curr + cnt;
    if m.header.authCount != |m.ansAuth| {
      return None;
    }
    cnt := WriteAnswers(dest, curr, m.ansAuth);
    curr := curr + cnt;
    if m.header.addCount != |m.ansAddit| {
      return None;
    }
    cnt := WriteAnswers(dest, curr, m.ansAddit);
    curr := curr + cnt;
    return Some(curr);
  }

  const BUFF_SIZE := 0x10000

  method Send(surface: Medium, m: Message) returns (sent: bool)
    requires Writable(m) && Stored(m) <= BUFF_SIZE
    modifies surface
    ensures sent == CountsMatch(m)
    ensures surface.sent == old(surface.sent) + if sent then [Image(m)] else []
  {
    hide Image, Stored;
    var buff := new byte[BUFF_SIZE];
    var size := WriteMessage(buff, m);
    if size.None? {
      return false;
    }
    surface.SendData(buff[..size.value]);
    return true;
  }

  // ---------- reading ----------

  function RecordsAt(p: seq<byte>, at: nat, n: nat, question: bool): (r: Reading<seq<Record>>)
    ensures r.Got? ==> |r.value| == n && forall x :: x in r.value ==> x.Question? == question
    decreases n
  {
    if n == 0 then Got([], 0)
    else
      match RecordsAt(p, at, n - 1, question)
      case Beyond => Beyond
      case Endless => Endless
      case Got(rs, c) =>
        match RecordAt(p, at + c, question)
        case Beyond => Beyond
        case Endless => Endless
        case Got(x, d) => Got(rs + [x], c + d)
  }

  /** Where each of some records begins, and where the last one ends. */
  ghost predicate Consecutive(p: seq<byte>, o: seq<nat>, rs: seq<Record>, question: bool) {
    && |o| == |rs| + 1
    && forall i :: 0 <= i < |rs| ==> o[i] <= o[i + 1] && RecordAt(p, o[i], question) == Got(rs[i], o[i + 1] - o[i])
  }

  /** So many records, the first at `at`, each where the one before ends, the last one ending at `end`. */
  ghost predicate Section(p: seq<byte>, at: nat, end: nat, n: nat, rs: seq<Record>, question: bool) {
    |rs| == n && exists o: seq<nat> :: Consecutive(p, o, rs, question) && o[0] == at && o[n] == end
  }

  lemma {:induction false} SectionIsRead(p: seq<byte>, at: nat, n: nat, question: bool)
    requires RecordsAt(p, at, n, question).Got?
    ensures var r := RecordsAt(p, at, n, question); Section(p, at, at + r.count, n, r.value, question)
    decreases n
  {
    hide RecordAt;
    var r := RecordsAt(p, at, n, question);
    if n == 0 {
      assert Consecutive(p, [at], [], question);
    } else {
      SectionIsRead(p, at, n - 1, question);
      var init := RecordsAt(p, at, n - 1, question);
      var o: seq<nat> :| Consecutive(p, o, init.value, question) && o[0] == at && o[n - 1] == at + init.count;
      assert Consecutive(p, o + [at + r.count], r.value, question);
    }
  }

  lemma {:induction false} ReadIsSection(p: seq<byte>, at: nat, end: nat, n: nat, rs: seq<Record>, question: bool)
    requires Section(p, at, end, n, rs, question)
    ensures at <= end && RecordsAt(p, at, n, question) == Got(rs, end - at)
    decreases n
  {
    hide RecordAt;
    var o: seq<nat> :| Consecutive(p, o, rs, question) && o[0] == at && o[n] == end;
    if n > 0 {
      var init := rs[..n - 1];
      assert Consecutive(p, o[..n], init, question);
      ReadIsSection(p, at, o[n - 1], n - 1, init, question);
      assert rs == init + [rs[n - 1]];
    }
  }

  lemma {:induction false} FailureStays(p: seq<byte>, at: nat, i: nat, n: nat, question: bool)
    requires i <= n && !RecordsAt(p, at, i, question).Got?
    ensures RecordsAt(p, at, n, question) == RecordsAt(p, at, i, question)
    decreases n
  {
    hide RecordAt;
    if i < n {
      FailureStays(p, at, i, n - 1, question);
    }
  }

  lemma Defined(p: seq<byte>, at: nat, i: nat, n: nat, question: bool)
    requires i <= n && RecordsAt(p, at, n, question) != Endless
    ensures RecordsAt(p, at, i, question) != Endless
  {
    if RecordsAt(p, at, i, question) == Endless {
      FailureStays(p, at, i, n, question);
    }
  }

  method ExtractQueries(p: seq<byte>, at: nat, n: nat) returns (r: Reading<seq<Record>>)
    requires RecordsAt(p, at, n, true) != Endless
    ensures r == RecordsAt(p, at, n, true)
  {
    hide RecordAt;
    var queries: seq<Record> := [];
    var cnt: nat := 0;
    for i := 0 to n
      invariant RecordsAt(p, at, i, true) == Got(queries, cnt)
    {
      Defined(p, at, i + 1, n, true);
      var q := ExtractQuery(p, at + cnt);
      if q.Beyond? {
        FailureStays(p, at, i + 1, n, true);
        return Beyond;
      }
      queries := queries + [q.value];
      cnt := cnt + q.count;
    }
    return Got(queries, cnt);
  }

  method ExtractAnswers(p: seq<byte>, at: nat, n: nat) returns (r: Reading<seq<Record>>)
    requires RecordsAt(p, at, n, false) != Endless
    ensures r == RecordsAt(p, at, n, false)
  {
    hide RecordAt;
    var answers: seq<Record> := [];
    var cnt: nat := 0;
    for i := 0 to n
      invariant RecordsAt(p, at, i, false) == Got(answers, cnt)
    {
      Defined(p, at, i + 1, n, false);
      var a := ExtractAnswer(p, at + cnt);
      if a.Beyond? {
        FailureStays(p, at, i + 1, n, false);
        return Beyond;
      }
      answers := answers + [a.value];
      cnt := cnt + a.count;
    }
    return Got(answers, cnt);
  }

  function MessageAt(p: seq<byte>): Reading<Message> {
    if |p| < HEADER_SIZE then Beyond
    else
      var h := ExtractHeader(p);
      match RecordsAt(p, HEADER_SIZE, h.queryCount, true)
      case Beyond => Beyond
      case Endless => Endless
      case Got(qs, c0) =>
        match RecordsAt(p, HEADER_SIZE + c0, h.ansCount, false)
        case Beyond => Beyond
        case Endless => Endless
        case Got(ans, c1) =>
          match RecordsAt(p, HEADER_SIZE + c0 + c1, h.authCount, false)
          case Beyond => Beyond
          case Endless => Endless
          case Got(auth, c2) =>
            match RecordsAt(p, HEADER_SIZE + c0 + c1 + c2, h.addCount, false)
            case Beyond => Beyond
            case Endless => Endless
            case Got(addit, c3) =>
              Got(Message(h, qs, ans, auth, addit), HEADER_SIZE + c0 + c1 + c2 + c3)
  }

  /** Four sections, one behind the other, the first behind the header. */
  ghost predicate Sections(p: seq<byte>, m: Message, end: nat) {
    exists e0: nat, e1: nat, e2: nat ::
      && Section(p, 12, e0, m.header.queryCount, m.queries, true)
      && Section(p, e0, e1, m.header.ansCount, m.ans, false)
      && Section(p, e1, e2, m.header.authCount, m.ansAuth, false)
      && Section(p, e2, end, m.header.addCount, m.ansAddit, false)
  }

  /** RFC 1035, section 4.1: for every packet, a message is read if and only if it is laid out in this way. */
  lemma ReadIffSections(p: seq<byte>, m: Message, count: nat)
    ensures MessageAt(p) == Got(m, count)
       <==> |p| >= HEADER_SIZE && m.header == ExtractHeader(p) && Sections(p, m, count)
  {
    hide RecordsAt, ExtractHeader, Section;
    if MessageAt(p) == Got(m, count) {
      var at := HEADER_SIZE;
      SectionIsRead(p, at, m.header.queryCount, true);
      var e0 := at + RecordsAt(p, at, m.header.queryCount, true).count;
      SectionIsRead(p, e0, m.header.ansCount, false);
      var e1 := e0 + RecordsAt(p, e0, m.header.ansCount, false).count;
      SectionIsRead(p, e1, m.header.authCount, false);
      var e2 := e1 + RecordsAt(p, e1, m.header.authCount, false).count;
      SectionIsRead(p, e2, m.header.addCount, false);
    }
    if |p| >= HEADER_SIZE && m.header == ExtractHeader(p) && Sections(p, m, count) {
      var e0: nat, e1: nat, e2: nat :|
        && Section(p, 12, e0, m.header.queryCount, m.queries, true)
        && Section(p, e0, e1, m.header.ansCount, m.ans, false)
        && Section(p, e1, e2, m.header.authCount, m.ansAuth, false)
        && Section(p, e2, count, m.header.addCount, m.ansAddit, false);
      ReadIsSection(p, 12, e0, m.header.queryCount, m.queries, true);
      ReadIsSection(p, e0, e1, m.header.ansCount, m.ans, false);
      ReadIsSection(p, e1, e2, m.header.authCount, m.ansAuth, false);
      ReadIsSection(p, e2, count, m.header.addCount, m.ansAddit, false);
    }
  }

  method ExtractMessage(p: seq<byte>) returns (r: Reading<Message>)
    requires MessageAt(p) != Endless
    ensures r == MessageAt(p)
  {
    hide RecordsAt;
    if |p| < HEADER_SIZE {
      return Beyond;
    }
    var h, curr := ReadHeader(p);
    var queries := ExtractQueries(p, curr, h.queryCount);
    if queries.Beyond? {
      return Beyond;
    }
    curr := curr + queries.count;
    var ans := ExtractAnswers(p, curr, h.ansCount);
    if ans.Beyond? {
      return Beyond;
    }
    curr := curr + ans.count;
    var ansAuth := ExtractAnswers(p, curr, h.authCount);
    if ansAuth.Beyond? {
      return Beyond;
    }
    curr := curr + ansAuth.count;
    var ansAddit := ExtractAnswers(p, curr, h.addCount);
    if ansAddit.Beyond? {
      return Beyond;
    }
    curr := curr + ansAddit.count;
    return Got(Message(h, queries.value, ans.value, ansAuth.value, ansAddit.value), curr);
  }

  // ---------- round trip ----------

  predicate AllWellFormed(rs: seq<Record>) {
    forall r :: r in rs ==> WellFormed(r)
  }

  lemma NoRecords(p: seq<byte>, at: nat, question: bool)
    ensures RecordsAt(p, at, 0, question) == Got([], 0) && RecordsImage([]) == []
  {
  }

  lemma OneMore(p: seq<byte>, at: nat, n: nat, question: bool, rs: seq<Record>, c: nat, x: Record, d: nat)
    requires RecordsAt(p, at, n, question) == Got(rs, c) && RecordAt(p, at + c, question) == Got(x, d)
    ensures RecordsAt(p, at, n + 1, question) == Got(rs + [x], c + d)
  {
    hide RecordAt;
  }

  lemma OneLess(p: seq<byte>, at: nat, n: nat, question: bool, rs: seq<Record>, x: Record, count: nat)
      returns (c: nat, d: nat)
    requires RecordsAt(p, at, n + 1, question) == Got(rs + [x], count)
    ensures RecordsAt(p, at, n, question) == Got(rs, c) && RecordAt(p, at + c, question) == Got(x, d)
    ensures count == c + d
  {
    hide RecordAt;
    var before := RecordsAt(p, at, n, question);
    c := before.count;
    var one := RecordAt(p, at + c, question);
    d := one.count;
    assert (before.value + [one.value])[..n] == before.value;
    assert (rs + [x])[..n] == rs;
  }

  /** A list of records, last one apart, as the writer lays it out. */
  lemma Snoc(p: seq<byte>, w: nat, init: seq<Record>, last: Record, question: bool)
    requires AllHaveData(init + [last]) && AllOf(init + [last], question)
    ensures AllHaveData(init) && AllOf(init, question) && HasData(last) && last.Question? == question
    ensures RecordsImage(init + [last]) == RecordsImage(init) + RecordImage(last)
    ensures At(p, w, RecordsImage(init + [last]))
       <==> At(p, w, RecordsImage(init)) && At(p, w + |RecordsImage(init)|, RecordImage(last))
    ensures AllWellFormed(init + [last]) <==> AllWellFormed(init) && WellFormed(last)
  {
    hide RecordImage, RecordsImage, HasData, WellFormed, At, AllWellFormed;
    InSnoc(init, last);
    ImageOfSnoc(init, last);
    AtSplit(p, w, RecordsImage(init), RecordImage(last));
  }

  lemma ImageOfSnoc(init: seq<Record>, last: Record)
    requires AllHaveData(init + [last]) && AllHaveData(init) && HasData(last)
    ensures RecordsImage(init + [last]) == RecordsImage(init) + RecordImage(last)
  {
    hide RecordImage, HasData;
    var rs := init + [last];
    assert rs[..|init|] == init && rs[..|rs|] == rs;
    RecordsImageStep(rs, |init|);
  }

  lemma InSnoc(init: seq<Record>, last: Record)
    ensures forall r :: r in init + [last] <==> r in init || r == last
    ensures AllWellFormed(init + [last]) <==> AllWellFormed(init) && WellFormed(last)
  {
    hide WellFormed;
  }

  /** Read from behind or in place; see `RecordReadBack`. */
  lemma {:induction false} SectionReadBack(
      p: seq<byte>, r: nat, w: nat, rs: seq<Record>, question: bool, count: nat)
    requires Behind(p, r, w) && AllHaveData(rs) && At(p, w, RecordsImage(rs)) && AllOf(rs, question)
    requires RecordsAt(p, r, |rs|, question) == Got(rs, count)
    ensures Behind(p, r + count, w + |RecordsImage(rs)|)
    ensures r + count == w + |RecordsImage(rs)| ==> r == w && AllWellFormed(rs)
    decreases |rs|
  {
    hide RecordsAt, RecordsImage, RecordAt, RecordImage, At, AllHaveData, AllOf;
    NoRecords(p, r, question);
    if rs != [] {
      var init, last := rs[..|rs| - 1], rs[|rs| - 1];
      assert rs == init + [last];
      Snoc(p, w, init, last, question);
      var c, d := OneLess(p, r, |rs| - 1, question, init, last, count);
      SectionReadBack(p, r, w, init, question, c);
      RecordReadBack(p, r + c, w + |RecordsImage(init)|, last, question, d);
    }
  }

  lemma {:induction false} SectionRoundTrip(p: seq<byte>, w: nat, rs: seq<Record>, question: bool)
    requires AllHaveData(rs) && At(p, w, RecordsImage(rs)) && AllOf(rs, question) && AllWellFormed(rs)
    ensures RecordsAt(p, w, |rs|, question) == Got(rs, |RecordsImage(rs)|)
    decreases |rs|
  {
    hide RecordsAt, RecordsImage, RecordAt, RecordImage, At, AllHaveData, AllOf;
    NoRecords(p, w, question);
    if rs != [] {
      var init, last := rs[..|rs| - 1], rs[|rs| - 1];
      assert rs == init + [last];
      Snoc(p, w, init, last, question);
      SectionRoundTrip(p, w, init, question);
      RecordRoundTrip(p, w + |RecordsImage(init)|, last, question);
      OneMore(p, w, |init|, question, init, |RecordsImage(init)|, last, |RecordImage(last)|);
    }
  }

  /** Opcode 0, good names, 16-bit ttls and exact data lengths. */
  predicate WellFormedMessage(m: Message) {
    && m.header.opcode == 0
    && AllWellFormed(m.queries) && AllWellFormed(m.ans)
    && AllWellFormed(m.ansAuth) && AllWellFormed(m.ansAddit)
  }

  /** The four sections are at these places, and are read in these numbers of bytes. */
  ghost predicate ReadsAs(p: seq<byte>, m: Message, c0: nat, c1: nat, c2: nat, c3: nat) {
    && RecordsAt(p, HEADER_SIZE, m.header.queryCount, true) == Got(m.queries, c0)
    && RecordsAt(p, HEADER_SIZE + c0, m.header.ansCount, false) == Got(m.ans, c1)
    && RecordsAt(p, HEADER_SIZE + c0 + c1, m.header.authCount, false) == Got(m.ansAuth, c2)
    && RecordsAt(p, HEADER_SIZE + c0 + c1 + c2, m.header.addCount, false) == Got(m.ansAddit, c3)
  }

  lemma Assembled(p: seq<byte>, m: Message, c0: nat, c1: nat, c2: nat, c3: nat)
    requires |p| >= HEADER_SIZE && ExtractHeader(p) == m.header && ReadsAs(p, m, c0, c1, c2, c3)
    ensures MessageAt(p) == Got(m, HEADER_SIZE + c0 + c1 + c2 + c3)
  {
    hide RecordsAt;
  }

  lemma Taken(p: seq<byte>, m: Message, n: nat) returns (c0: nat, c1: nat, c2: nat, c3: nat)
    requires MessageAt(p) == Got(m, n)
    ensures |p| >= HEADER_SIZE && ExtractHeader(p) == m.header && ReadsAs(p, m, c0, c1, c2, c3)
    ensures n == HEADER_SIZE + c0 + c1 + c2 + c3
  {
    hide RecordsAt;
    var h := ExtractHeader(p);
    c0 := RecordsAt(p, HEADER_SIZE, h.queryCount, true).count;
    c1 := RecordsAt(p, HEADER_SIZE + c0, h.ansCount, false).count;
    c2 := RecordsAt(p, HEADER_SIZE + c0 + c1, h.authCount, false).count;
    c3 := RecordsAt(p, HEADER_SIZE + c0 + c1 + c2, h.addCount, false).count;
  }

  /** The sections of a written message, one after another. */
  ghost predicate LaidOut(p: seq<byte>, q: seq<byte>, a: seq<byte>, u: seq<byte>, d: seq<byte>) {
    && At(p, HEADER_SIZE, q) && At(p, HEADER_SIZE + |q|, a)
    && At(p, HEADER_SIZE + |q| + |a|, u) && At(p, HEADER_SIZE + |q| + |a| + |u|, d)
  }

  lemma Regroup(h: seq<byte>, q: seq<byte>, a: seq<byte>, u: seq<byte>, d: seq<byte>, rest: seq<byte>)
    ensures h + q + a + u + d + rest == h + (q + a + u + d + rest)
  {
    ConcatAssoc(h, q, a);
    ConcatAssoc(h, q + a, u);
    ConcatAssoc(h, q + a + u, d);
    ConcatAssoc(h, q + a + u + d, rest);
  }

  lemma AtStart(p: seq<byte>)
    ensures At(p, 0, p)
  {
  }

  lemma LaysOut(h: seq<byte>, q: seq<byte>, a: seq<byte>, u: seq<byte>, d: seq<byte>, rest: seq<byte>)
    requires |h| == HEADER_SIZE
    ensures LaidOut(h + q + a + u + d + rest, q, a, u, d)
    ensures h + q + a + u + d + rest == h + (q + a + u + d + rest)
  {
    hide At;
    Regroup(h, q, a, u, d, rest);
    var p := h + q + a + u + d + rest;
    AtStart(p);
    AtSplit(p, 0, h + q + a + u + d, rest);
    AtSplit(p, 0, h + q + a + u, d);
    AtSplit(p, 0, h + q + a, u);
    AtSplit3(p, 0, h, q, a);
  }

  lemma ImageLaidOut(m: Message, rest: seq<byte>)
    requires Writable(m)
    ensures var p := Image(m) + rest;
      && LaidOut(p, RecordsImage(m.queries), RecordsImage(m.ans), RecordsImage(m.ansAuth), RecordsImage(m.ansAddit))
      && |p| >= HEADER_SIZE
      && ExtractHeader(p) == if m.header.opcode == 0 then m.header else m.header.(opcode := 0, aa := 0)
  {
    var h, q, a, u, d := HeaderImage(m.header), RecordsImage(m.queries), RecordsImage(m.ans),
                         RecordsImage(m.ansAuth), RecordsImage(m.ansAddit);
    LaysOut(h, q, a, u, d, rest);
    HeaderRoundTrip(m.header, q + a + u + d + rest);
  }

  /**
    For a message the writer takes, whatever follows it in the buffer: reading gives back the message
    and its length exactly when it is well formed.
   */
  lemma MessageRoundTrip(m: Message, rest: seq<byte>)
    requires Writable(m) && CountsMatch(m)
    ensures MessageAt(Image(m) + rest) == Got(m, |Image(m)|) <==> WellFormedMessage(m)
  {
    ImageLaidOut(m, rest);
    var p := Image(m) + rest;
    if WellFormedMessage(m) {
      WellFormedComesBack(p, m);
    } else if MessageAt(p) == Got(m, |Image(m)|) {
      OnlyWellFormedComesBack(p, m);
    }
  }

  ghost predicate Holds(p: seq<byte>, m: Message)
    requires Writable(m)
  {
    LaidOut(p, RecordsImage(m.queries), RecordsImage(m.ans), RecordsImage(m.ansAuth), RecordsImage(m.ansAddit))
  }

  lemma WellFormedComesBack(p: seq<byte>, m: Message)
    requires Writable(m) && CountsMatch(m) && WellFormedMessage(m) && Holds(p, m)
    requires |p| >= HEADER_SIZE && ExtractHeader(p) == m.header
    ensures MessageAt(p) == Got(m, |Image(m)|)
  {
    hide RecordsAt, RecordsImage;
    var at := HEADER_SIZE;
    SectionRoundTrip(p, at, m.queries, true);
    at := at + |RecordsImage(m.queries)|;
    SectionRoundTrip(p, at, m.ans, false);
    at := at + |RecordsImage(m.ans)|;
    SectionRoundTrip(p, at, m.ansAuth, false);
    at := at + |RecordsImage(m.ansAuth)|;
    SectionRoundTrip(p, at, m.ansAddit, false);
    Assembled(p, m, |RecordsImage(m.queries)|, |RecordsImage(m.ans)|,
              |RecordsImage(m.ansAuth)|, |RecordsImage(m.ansAddit)|);
  }

  lemma OnlyWellFormedComesBack(p: seq<byte>, m: Message)
    requires Writable(m) && CountsMatch(m) && Holds(p, m)
    requires |p| >= HEADER_SIZE && (ExtractHeader(p) == m.header ==> m.header.opcode == 0)
    requires MessageAt(p) == Got(m, |Image(m)|)
    ensures WellFormedMessage(m)
  {
    hide RecordsAt, RecordsImage, At;
    var c0, c1, c2, c3 := Taken(p, m, |Image(m)|);
    var w, r := HEADER_SIZE, HEADER_SIZE;
    SectionReadBack(p, r, w, m.queries, true, c0);
    w, r := w + |RecordsImage(m.queries)|, r + c0;
    SectionReadBack(p, r, w, m.ans, false, c1);
    w, r := w + |RecordsImage(m.ans)|, r + c1;
    SectionReadBack(p, r, w, m.ansAuth, false, c2);
    w, r := w + |RecordsImage(m.ansAuth)|, r + c2;
    SectionReadBack(p, r, w, m.ansAddit, false, c3);
  }
}
