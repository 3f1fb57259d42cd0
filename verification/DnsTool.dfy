/** Answering a DNS message from the database. */
module DnsTool {
  import opened Bytes
  import opened DnsName
  import opened DnsNameExact
  import opened DnsRecord
  import opened DnsRecordExact
  import opened DnsMessage
  import opened DnsMx
  import opened DnsDatabase
  import opened Ip4Address
  import Trie

  const TYPE_A: word := 1
  const TYPE_MX: word := 15
  const ONE_HOUR: dword := 3600
  const MX_PREFERENCE: word := 10

  type Addresses = map<Trie.Word, Ip4Addr>
  type MailHosts = map<Trie.Word, seq<byte>>

  /** `string((char*) data)`: the bytes before the first NUL. */
  function CString(data: seq<byte>): (r: seq<byte>)
    requires NUL in data
    ensures NUL !in r && r + [NUL] <= data
  {
    if data[0] == NUL then []
    else
      var tail := CString(data[1..]);
      assert data[1..][..|tail| + 1] == data[1..|tail| + 2];
      [data[0]] + tail
  }

  /** The size of the data is stored in 16 bits. */
  function MxLen(rdata: seq<byte>): word {
    |rdata| % 0x1_0000
  }

  predicate LooksUp(q: Record) {
    q.rtype == TYPE_A || q.rtype == TYPE_MX
  }

  /** The answer to one query, if the database has one. */
  function AnswerTo(q: Record, a: Addresses, mx: MailHosts): (r: Option<Record>)
    requires LooksUp(q) ==> NUL in q.name
    ensures r.Some? ==> r.value.Resource? && HasData(r.value)
  {
    if q.rtype == TYPE_A && CString(q.name) in a then
      Some(Resource(q.name, q.rtype, q.rclass, ONE_HOUR, 4, a[CString(q.name)]))
    else if q.rtype == TYPE_MX && CString(q.name) in mx then
      var rdata := MxRdata(MxData(MX_PREFERENCE, mx[CString(q.name)]));
      Some(Resource(q.name, q.rtype, q.rclass, ONE_HOUR, MxLen(rdata), rdata))
    else None
  }

  /** A name that is looked up has its NUL, and the walk along it stays within the trie. */
  ghost predicate AskableOne(q: Record, a: Addresses, mx: MailHosts) {
    && (LooksUp(q) ==> NUL in q.name)
    && (q.rtype == TYPE_A ==> Trie.Walkable(a, CString(q.name)))
    && (q.rtype == TYPE_MX ==> Trie.Walkable(mx, CString(q.name)))
  }

  ghost predicate Askable(qs: seq<Record>, a: Addresses, mx: MailHosts) {
    forall i :: 0 <= i < |qs| ==> AskableOne(qs[i], a, mx)
  }

  /** The names that are looked up have their NUL. */
  predicate Named(qs: seq<Record>) {
    forall i :: 0 <= i < |qs| ==> (LooksUp(qs[i]) ==> NUL in qs[i].name)
  }

  function Answers(qs: seq<Record>, a: Addresses, mx: MailHosts): seq<Record>
    requires Named(qs)
  {
    if qs == [] then []
    else
      var last := AnswerTo(qs[|qs| - 1], a, mx);
      Answers(qs[..|qs| - 1], a, mx) + if last.Some? then [last.value] else []
  }

  /** The server's start of authority, once for each query without an answer. */
  function Authorities(qs: seq<Record>, a: Addresses, mx: MailHosts, soa: Record): seq<Record>
    requires Named(qs)
  {
    if qs == [] then []
    else
      Authorities(qs[..|qs| - 1], a, mx, soa)
      + if AnswerTo(qs[|qs| - 1], a, mx).Some? then [] else [soa]
  }

  /** Two header bits are never assigned and hold whatever was there. */
  function ReplyHeader(id: word, queryCount: word, ansCount: word, authCount: word, cd: bit, ad: bit): Header {
    Header(id, 0, 0, 0, 0, 1, 0, cd, ad, 0, queryCount, ansCount, authCount, 0)
  }

  function Reply(m: Message, a: Addresses, mx: MailHosts, soa: Record, cd: bit, ad: bit): Message
    requires m.header.queryCount <= |m.queries| && Named(m.queries[..m.header.queryCount])
  {
    var asked := m.queries[..m.header.queryCount];
    OneRecordPerQuery(asked, a, mx, soa);
    Message(ReplyHeader(m.header.id, m.header.queryCount, |Answers(asked, a, mx)|,
                        |Authorities(asked, a, mx, soa)|, cd, ad),
            m.queries, Answers(asked, a, mx), Authorities(asked, a, mx, soa), [])
  }

  /** The switch on the query's type. */
  method AnswerQuery(database: Database, query: Record) returns (r: Option<Record>)
    requires database.Valid() && AskableOne(query, database.RecordsA(), database.RecordsMx())
    ensures r == AnswerTo(query, database.RecordsA(), database.RecordsMx())
  {
    hide Trie.Walkable, MxRdata, Trie.Good, Trie.EntriesOf;
    if query.rtype == TYPE_A {
      var res := database.SearchRecordA(CString(query.name));
      if res.None? {
        return None;
      }
      return Some(Resource(query.name, query.rtype, query.rclass, ONE_HOUR, 4, res.value));
    } else if query.rtype == TYPE_MX {
      var res := database.SearchRecordMx(CString(query.name));
      if res.None? {
        return None;
      }
      var rdata := ConvertToRdata(MxData(MX_PREFERENCE, res.value));
      return Some(Resource(query.name, query.rtype, query.rclass, ONE_HOUR, MxLen(rdata), rdata));
    } else {
      return None;
    }
  }

  method HandleQuery(database: Database, m: Message, soa: Record, cd: bit, ad: bit) returns (reply: Message)
    requires database.Valid() && soa.Resource?
    requires m.header.queryCount <= |m.queries|
    requires Askable(m.queries[..m.header.queryCount], database.RecordsA(), database.RecordsMx())
    ensures reply == Reply(m, database.RecordsA(), database.RecordsMx(), soa, cd, ad)
  {
    hide AnswerTo, Askable, Named, AskableOne, Answers, Authorities, CString;
    hide Trie.Good, Trie.EntriesOf, Trie.TrieNode.State;
    var answers: seq<Record> := [];
    var authAns: seq<Record> := [];
    ghost var asked, a, mx := m.queries[..m.header.queryCount], database.RecordsA(), database.RecordsMx();
    NoQueries(a, mx, soa);
    assert asked[..0] == [];
    for i := 0 to m.header.queryCount
      invariant database.Valid() && database.RecordsA() == a && database.RecordsMx() == mx
      invariant Named(asked[..i]) && answers == Answers(asked[..i], a, mx)
      invariant authAns == Authorities(asked[..i], a, mx, soa)
    {
      var query := m.queries[i];
      OneMoreQuery(asked, i, a, mx, soa);
      var answer := AnswerQuery(database, query);
      if answer.Some? {
        answers := answers + [answer.value];
      } else {
        authAns := authAns + [soa];
      }
    }
    assert asked[..m.header.queryCount] == asked;
    OneRecordPerQuery(asked, a, mx, soa);
    var header := ReplyHeader(m.header.id, m.header.queryCount, |answers|, |authAns|, cd, ad);
    return Message(header, m.queries, answers, authAns, []);
  }

  lemma NoQueries(a: Addresses, mx: MailHosts, soa: Record)
    ensures Named([]) && Answers([], a, mx) == [] && Authorities([], a, mx, soa) == []
  {
  }

  lemma OneMoreQuery(qs: seq<Record>, i: nat, a: Addresses, mx: MailHosts, soa: Record)
    requires Askable(qs, a, mx) && i < |qs|
    ensures Named(qs) && Named(qs[..i]) && Named(qs[..i + 1]) && AskableOne(qs[i], a, mx)
    ensures var last := AnswerTo(qs[i], a, mx);
      && Answers(qs[..i + 1], a, mx) == Answers(qs[..i], a, mx) + (if last.Some? then [last.value] else [])
      && Authorities(qs[..i + 1], a, mx, soa) == Authorities(qs[..i], a, mx, soa) + (if last.Some? then [] else [soa])
  {
    hide AnswerTo, CString, Trie.Walkable;
    assert qs[..i + 1][..i] == qs[..i];
  }

  // ---------- what a reply is ----------

  lemma {:induction false} OneRecordPerQuery(qs: seq<Record>, a: Addresses, mx: MailHosts, soa: Record)
    requires Named(qs)
    ensures |Answers(qs, a, mx)| + |Authorities(qs, a, mx, soa)| == |qs|
    ensures forall r :: r in Authorities(qs, a, mx, soa) ==> r == soa
    decreases |qs|
  {
    if qs != [] {
      OneRecordPerQuery(qs[..|qs| - 1], a, mx, soa);
    }
  }

  /** The answer to query i stands behind those to the queries before it, and only there. */
  lemma {:induction false} AnswersInOrder(qs: seq<Record>, a: Addresses, mx: MailHosts, i: nat)
    requires Named(qs) && i < |qs| && AnswerTo(qs[i], a, mx).Some?
    ensures |Answers(qs[..i], a, mx)| < |Answers(qs, a, mx)|
    ensures Answers(qs, a, mx)[|Answers(qs[..i], a, mx)|] == AnswerTo(qs[i], a, mx).value
    decreases |qs|
  {
    hide AnswerTo, CString;
    var init := qs[..|qs| - 1];
    if i < |init| {
      AnswersInOrder(init, a, mx, i);
      assert init[..i] == qs[..i] && init[i] == qs[i];
    }
  }

  /** Every answer answers some query. */
  lemma {:induction false} AnswersAreAsked(qs: seq<Record>, a: Addresses, mx: MailHosts)
    requires Named(qs)
    ensures forall r :: r in Answers(qs, a, mx) ==> exists i :: 0 <= i < |qs| && AnswerTo(qs[i], a, mx) == Some(r)
    decreases |qs|
  {
    if qs != [] {
      var init := qs[..|qs| - 1];
      AnswersAreAsked(init, a, mx);
      forall r | r in Answers(qs, a, mx)
        ensures exists i :: 0 <= i < |qs| && AnswerTo(qs[i], a, mx) == Some(r)
      {
        if r in Answers(init, a, mx) {
          var i :| 0 <= i < |init| && AnswerTo(init[i], a, mx) == Some(r);
          assert qs[i] == init[i];
        } else {
          assert AnswerTo(qs[|qs| - 1], a, mx) == Some(r);
        }
      }
    }
  }

  /** What is to go out for an address: type 1, an hour, four bytes (RFC 1035, section 3.4.1). */
  ghost function AddressRecord(q: Record, addr: Ip4Addr): Record {
    Resource(q.name, 1, q.rclass, 3600, 4, addr)
  }

  /** And for a mail host: type 15, an hour, the preference 10 and the encoded host (section 3.3.9). */
  ghost function MailRecord(q: Record, host: seq<byte>): Record {
    var rdata := [0, 10] + Encode(host);
    Resource(q.name, 15, q.rclass, 3600, |rdata| % 0x1_0000, rdata)
  }

  /** The k-th addition is the last one under this name. */
  ghost predicate LastUnder<K>(additions: seq<(Trie.Word, K)>, k: nat, name: Trie.Word) {
    && k < |additions| && additions[k].0 == name
    && forall j :: k < j < |additions| ==> additions[j].0 != name
  }

  ghost predicate Added<K>(additions: seq<(Trie.Word, K)>, name: Trie.Word) {
    exists k :: 0 <= k < |additions| && additions[k].0 == name
  }

  /**
    After any additions, an address query is answered exactly when its name was added, and then with
    the address it was added with last.
   */
  lemma AddressQueryAnswered(q: Record, additions: seq<(Trie.Word, Ip4Addr)>, mx: MailHosts, i: nat)
    requires NUL in q.name && q.rtype == 1
    ensures AnswerTo(q, Applied(additions), mx).Some? <==> Added(additions, CString(q.name))
    ensures LastUnder(additions, i, CString(q.name)) ==>
              AnswerTo(q, Applied(additions), mx) == Some(AddressRecord(q, additions[i].1))
  {
    LastAdditionWins(additions, CString(q.name));
  }

  /** The same for a mail query and the hosts. */
  lemma MailQueryAnswered(q: Record, a: Addresses, hosts: seq<(Trie.Word, seq<byte>)>, i: nat)
    requires NUL in q.name && q.rtype == 15
    ensures AnswerTo(q, a, Applied(hosts)).Some? <==> Added(hosts, CString(q.name))
    ensures LastUnder(hosts, i, CString(q.name)) ==>
              AnswerTo(q, a, Applied(hosts)) == Some(MailRecord(q, hosts[i].1))
  {
    hide Encode;
    LastAdditionWins(hosts, CString(q.name));
    if LastUnder(hosts, i, CString(q.name)) {
      assert MxRdata(MxData(MX_PREFERENCE, hosts[i].1)) == [0, 10] + Encode(hosts[i].1);
    }
  }

  // ---------- loading, asking, answering ----------

  /** A record of an answer to this query or to one like it. */
  ghost predicate Matches(r: Record, q: Record) {
    r.name == q.name && r.rtype == q.rtype && r.rclass == q.rclass
  }

  /**
    The answers have a record for this query exactly when its name was added, and every such record is
    the expected one for what was added last.
   */
  ghost predicate AnsweredIffAdded<K>(ans: seq<Record>, q: Record, additions: seq<(Trie.Word, K)>,
                                      expected: K -> Record)
    requires NUL in q.name
  {
    && ((exists r :: r in ans && Matches(r, q)) <==> Added(additions, CString(q.name)))
    && forall r, k: nat :: r in ans && Matches(r, q) && LastUnder(additions, k, CString(q.name)) ==>
         r == expected(additions[k].1)
  }

  /** Address and mail queries by what was added; no other query is answered. */
  ghost predicate AnsweredRightly(ans: seq<Record>, q: Record, additions: seq<(Trie.Word, Ip4Addr)>,
                                  hosts: seq<(Trie.Word, seq<byte>)>) {
    if q.rtype == 1 then
      NUL in q.name && AnsweredIffAdded(ans, q, additions, (addr: Ip4Addr) => AddressRecord(q, addr))
    else if q.rtype == 15 then
      NUL in q.name && AnsweredIffAdded(ans, q, hosts, (host: seq<byte>) => MailRecord(q, host))
    else forall r :: r in ans ==> !Matches(r, q)
  }

  lemma AnswersFollowAdditions(qs: seq<Record>, additions: seq<(Trie.Word, Ip4Addr)>,
                               hosts: seq<(Trie.Word, seq<byte>)>, i: nat)
    requires Named(qs) && i < |qs|
    ensures AnsweredRightly(Answers(qs, Applied(additions), Applied(hosts)), qs[i], additions, hosts)
  {
    hide CString, Answers, Applied, AnswerTo, AddressRecord, MailRecord;
    var a, mx, q := Applied(additions), Applied(hosts), qs[i];
    MatchingAnswers(qs, a, mx, i);
    assert LooksUp(q) ==> NUL in q.name;
    if q.rtype == 1 {
      AddressQueryAnswered(q, additions, mx, 0);
      forall k: nat | LastUnder(additions, k, CString(q.name))
        ensures AnswerTo(q, a, mx) == Some(AddressRecord(q, additions[k].1))
      {
        AddressQueryAnswered(q, additions, mx, k);
      }
    } else if q.rtype == 15 {
      MailQueryAnswered(q, a, hosts, 0);
      forall k: nat | LastUnder(hosts, k, CString(q.name))
        ensures AnswerTo(q, a, mx) == Some(MailRecord(q, hosts[k].1))
      {
        MailQueryAnswered(q, a, hosts, k);
      }
    } else {
      OtherTypes(q, a, mx);
    }
  }

  lemma OtherTypes(q: Record, a: Addresses, mx: MailHosts)
    requires q.rtype != 1 && q.rtype != 15
    ensures AnswerTo(q, a, mx).None?
  {
  }

  /** Among the answers, those that match a query are the answer to it. */
  lemma MatchingAnswers(qs: seq<Record>, a: Addresses, mx: MailHosts, i: nat)
    requires Named(qs) && i < |qs| && (LooksUp(qs[i]) ==> NUL in qs[i].name)
    ensures (exists r :: r in Answers(qs, a, mx) && Matches(r, qs[i])) <==> AnswerTo(qs[i], a, mx).Some?
    ensures forall r :: r in Answers(qs, a, mx) && Matches(r, qs[i]) ==> AnswerTo(qs[i], a, mx) == Some(r)
  {
    hide CString, Answers, MxRdata;
    var q, ans := qs[i], Answers(qs, a, mx);
    AnswersAreAsked(qs, a, mx);
    if AnswerTo(q, a, mx).Some? {
      AnswersInOrder(qs, a, mx, i);
      assert AnswerTo(q, a, mx).value in ans && Matches(AnswerTo(q, a, mx).value, q);
    }
    forall r | r in ans && Matches(r, q)
      ensures AnswerTo(q, a, mx) == Some(r)
    {
      var j :| 0 <= j < |qs| && AnswerTo(qs[j], a, mx) == Some(r);
    }
  }

  /** Both loading loops, into a new database. */
  method Load(additions: seq<(Trie.Word, Ip4Addr)>, hosts: seq<(Trie.Word, seq<byte>)>) returns (database: Database)
    requires Addable(additions) && Addable(hosts)
    ensures database.Valid()
    ensures database.RecordsA() == Applied(additions) && database.RecordsMx() == Applied(hosts)
  {
    hide Trie.Good, Trie.EntriesOf, Trie.TrieNode.State;
    database := new Database();
    database.LoadA(additions);
    database.LoadMx(hosts);
    assert map[] + Applied(additions) == Applied(additions) && map[] + Applied(hosts) == Applied(hosts);
  }

  /** RFC 1035, section 4.1.1: a response to that query, not recursive, no error, and the counts there are. */
  ghost predicate AnswersHeader(h: Header, m: Message, reply: Message) {
    && h.id == m.header.id && h.qr == 1 && h.opcode == 0 && h.rcode == 0
    && h.aa == 0 && h.tc == 0 && h.rd == 0 && h.ra == 0
    && h.queryCount == m.header.queryCount && h.ansCount as nat == |reply.ans|
    && h.authCount as nat == |reply.ansAuth| && h.addCount as nat == |reply.ansAddit|
  }

  /**
    The server from its files to an answer: a response with the queries in it, one record for each query,
    which is an answer if the name was added and else its start of authority.
   */
  method Serve(additions: seq<(Trie.Word, Ip4Addr)>, hosts: seq<(Trie.Word, seq<byte>)>,
               m: Message, soa: Record, cd: bit, ad: bit)
    returns (reply: Message)
    requires Addable(additions) && Addable(hosts) && soa.Resource? && m.header.queryCount as nat <= |m.queries|
    requires Askable(m.queries[..m.header.queryCount], Applied(additions), Applied(hosts))
    ensures AnswersHeader(reply.header, m, reply)
    ensures reply.queries == m.queries && reply.ansAddit == []
    ensures |reply.ans| + |reply.ansAuth| == m.header.queryCount as nat
    ensures forall r :: r in reply.ansAuth ==> r == soa
    ensures forall i :: 0 <= i < m.header.queryCount as nat ==>
              AnsweredRightly(reply.ans, m.queries[i], additions, hosts)
  {
    hide AnsweredRightly, Answers, Authorities, AnswerTo, CString, Trie.Walkable, Trie.Good, Trie.EntriesOf;
    var database := Load(additions, hosts);
    reply := HandleQuery(database, m, soa, cd, ad);
    ghost var asked := m.queries[..m.header.queryCount];
    OneRecordPerQuery(asked, Applied(additions), Applied(hosts), soa);
    forall i | 0 <= i < m.header.queryCount as nat
      ensures AnsweredRightly(reply.ans, m.queries[i], additions, hosts)
    {
      AnswersFollowAdditions(asked, additions, hosts, i);
      assert asked[i] == m.queries[i];
    }
  }

  // ---------- a reply on the wire ----------

  /** What the records of a reply need to come back from the wire, checked before asking. */
  predicate FitsOnTheWire(m: Message, mx: MailHosts, soa: Record) {
    && (forall q :: q in m.queries ==> q.Question? && GoodName(q.name))
    && (forall n :: n in mx ==> |MxRdata(MxData(MX_PREFERENCE, mx[n]))| < 0x1_0000)
    && soa.Resource? && HasData(soa) && WellFormed(soa)
  }

  lemma AnswerIsWellFormed(q: Record, a: Addresses, mx: MailHosts)
    requires (LooksUp(q) ==> NUL in q.name) && GoodName(q.name)
    requires forall n :: n in mx ==> |MxRdata(MxData(MX_PREFERENCE, mx[n]))| < 0x1_0000
    ensures AnswerTo(q, a, mx).Some? ==> WellFormed(AnswerTo(q, a, mx).value)
  {
    hide GoodName, MxRdata, CString;
  }

  lemma {:induction false} RecordsAreWellFormed(qs: seq<Record>, a: Addresses, mx: MailHosts, soa: Record)
    requires Named(qs) && forall q :: q in qs ==> q.Question? && GoodName(q.name)
    requires forall n :: n in mx ==> |MxRdata(MxData(MX_PREFERENCE, mx[n]))| < 0x1_0000
    requires soa.Resource? && HasData(soa) && WellFormed(soa)
    ensures var ans := Answers(qs, a, mx); AllHaveData(ans) && AllOf(ans, false) && AllWellFormed(ans)
    ensures var auth := Authorities(qs, a, mx, soa); AllHaveData(auth) && AllOf(auth, false) && AllWellFormed(auth)
    decreases |qs|
  {
    hide GoodName, MxRdata, CString, AnswerTo, WellFormed, HasData;
    if qs != [] {
      var init, last := qs[..|qs| - 1], qs[|qs| - 1];
      assert last in qs;
      AnswerIsWellFormed(last, a, mx);
      RecordsAreWellFormed(init, a, mx, soa);
    }
  }

  /** A reply goes out, and whoever reads it gets the queries and the answers as they are. */
  lemma ReplyRoundTrip(m: Message, a: Addresses, mx: MailHosts, soa: Record, cd: bit, ad: bit, rest: seq<byte>)
    requires m.header.queryCount == |m.queries| && Named(m.queries[..m.header.queryCount])
    requires FitsOnTheWire(m, mx, soa)
    ensures var reply := Reply(m, a, mx, soa, cd, ad);
      Writable(reply) && CountsMatch(reply) && MessageAt(Image(reply) + rest) == Got(reply, |Image(reply)|)
  {
    hide GoodName, MxRdata, MessageAt, Image, Answers, Authorities;
    var reply := Reply(m, a, mx, soa, cd, ad);
    assert m.queries[..m.header.queryCount] == m.queries;
    RecordsAreWellFormed(m.queries, a, mx, soa);
    MessageRoundTrip(reply, rest);
  }
}
