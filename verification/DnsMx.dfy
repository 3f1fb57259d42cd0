/** The data of a mail exchange record: a preference and a host (RFC 1035, section 3.3.9). */
module DnsMx {
  import opened Bytes
  import opened DnsName
  import opened DnsExpand
  import opened DnsNameExact
  import opened DnsRecord

  /** The host in text form, with its NUL. */
  datatype MxData = MxData(preference: word, domain: seq<byte>)

  function MxRdata(mx: MxData): seq<byte> {
    Be16(mx.preference) + Encode(mx.domain)
  }

  method ConvertToRdata(mx: MxData) returns (res: seq<byte>)
    ensures res == MxRdata(mx)
  {
    hide Encode;
    SwapBytesGivesNetworkOrder(mx.preference);
    var encodedName := EncodeDnsName(mx.domain);
    res := Store16(SwapBytes(mx.preference)) + encodedName;
  }

  function MxAt(p: seq<byte>, at: nat): Reading<MxData> {
    if |p| < at + 2 then Beyond
    else
      match NameAt(p, at + 2)
      case Beyond => Beyond
      case Endless => Endless
      case Got(domain, count) => Got(MxData(NetworkWord(p, at), domain), 2 + count)
  }

  method ExtractMx(p: seq<byte>, at: nat) returns (r: Reading<MxData>)
    requires MxAt(p, at) != Endless
    ensures r == MxAt(p, at)
  {
    if |p| < at + 2 {
      return Beyond;
    }
    var preference := Get16(p, at);
    var domain := ReadNameAt(p, at + 2);
    r := if domain.Beyond? then Beyond else Got(MxData(preference, domain.value), 2 + domain.count);
  }

  /** Exactly the data with a good name comes back, with the length it was written with. */
  lemma MxRoundTrip(p: seq<byte>, at: nat, mx: MxData)
    requires At(p, at, MxRdata(mx))
    ensures MxAt(p, at) == Got(mx, |MxRdata(mx)|) <==> GoodName(mx.domain)
  {
    hide Encode, GoodName, NameAt;
    AtSplit(p, at, Be16(mx.preference), Encode(mx.domain));
    WordAt(p, at, mx.preference);
    NameRoundTrip(p, at + 2, mx.domain);
  }

  // ---------- a host passed without its NUL ----------

  /** The last letter is taken for the NUL. */
  function CutHost(host: seq<byte>): seq<byte> {
    if host == [] then [] else host[..|host| - 1] + [NUL]
  }

  lemma CutHostIsEncoded(host: seq<byte>)
    ensures Encode(host) == Encode(CutHost(host))
  {
    if host != [] {
      assert CutHost(host)[..|host| - 1] == host[..|host| - 1];
    }
  }

  /** What goes out for a host without its NUL is never what goes out for the host. */
  lemma HostNeverGoesOut(preference: word, host: seq<byte>)
    ensures MxRdata(MxData(preference, host)) != MxRdata(MxData(preference, host + [NUL]))
  {
    hide Encode;
    EncodedLength(host + [NUL]);
    if host == [] {
      EncodedNothing();
    } else {
      EncodedLength(host);
    }
  }

  lemma EncodedNothing()
    ensures Encode([]) == [NUL]
  {
  }

  /** Labels of a text without its last byte are no longer than those of the text. */
  lemma {:induction false} LabelsOfInit(d: seq<byte>)
    requires d != []
    ensures var l, m := LabelsOf(d[..|d| - 1]), LabelsOf(d);
      |l| <= |m| && forall i :: 0 <= i < |l| ==> |l[i]| <= |m[i]|
  {
    if |d| > 1 {
      var rest := d[1..];
      assert d[..|d| - 1][1..] == rest[..|rest| - 1];
      LabelsOfInit(rest);
    }
  }

  lemma {:induction false} JoinOfPrefix(labels: seq<Label>, k: nat)
    requires k <= |labels|
    ensures |JoinDots(labels[..k])| <= |JoinDots(labels)|
  {
    if k > 0 {
      JoinOfPrefix(labels[1..], k - 1);
      assert labels[..k][1..] == labels[1..][..k - 1];
    }
  }

  lemma ShortInit(host: seq<byte>)
    requires host != [] && Plain(host) && Short(LabelsOf(host))
    ensures Plain(host[..|host| - 1]) && Short(LabelsOf(host[..|host| - 1]))
  {
    hide LabelsOf;
    LabelsOfInit(host);
    assert host == host[..|host| - 1] + [host[|host| - 1]];
    PlainParts(host[..|host| - 1], [host[|host| - 1]]);
    var l := LabelsOf(host[..|host| - 1]);
    forall x | x in l
      ensures |x| < 0xC0
    {
      var i :| 0 <= i < |l| && l[i] == x;
      assert LabelsOf(host)[i] in LabelsOf(host);
    }
  }

  /**
    Read from a packet that holds such data, the host is the one that was meant if and only if it is
    empty; the host without its last letter is read, in its place, if and only if that is a good name.
   */
  lemma HostArrivesIffEmpty(p: seq<byte>, at: nat, preference: word, host: seq<byte>)
    requires At(p, at, MxRdata(MxData(preference, host)))
    ensures MxAt(p, at).Got? && MxAt(p, at).value.domain == host + [NUL] <==> host == []
    ensures MxAt(p, at) == Got(MxData(preference, CutHost(host)), |MxRdata(MxData(preference, host))|)
       <==> GoodName(CutHost(host))
  {
    hide Encode, GoodName, NameAt;
    CutHostIsEncoded(host);
    MxRoundTrip(p, at, MxData(preference, CutHost(host)));
    AtSplit(p, at, Be16(preference), Encode(host));
    if host == [] {
      EmptyHostIsRead(p, at + 2, host);
      assert host + [NUL] == [NUL];
    } else if NameAt(p, at + 2).Got? {
      HostIsLonger(p, at + 2, host);
    }
  }

  lemma EmptyHostIsRead(p: seq<byte>, at: nat, host: seq<byte>)
    requires host == [] && At(p, at, Encode(host))
    ensures NameAt(p, at) == Got([NUL], 1)
  {
    EncodedNothing();
    assert p[at] == p[at..at + 1][0];
    NulIsRead(p, at);
  }

  /** Either what is read has no such text at all, or it is at least one letter short. */
  lemma HostIsLonger(p: seq<byte>, at: nat, host: seq<byte>)
    requires host != [] && At(p, at, Encode(host)) && NameAt(p, at).Got?
    ensures NameAt(p, at).value != host + [NUL]
  {
    hide LabelsOf, Plain, Short, NameAt, JoinDots;
    if NameAt(p, at).value == host + [NUL] {
      ReadNamesAreShort(p, at);
      assert (host + [NUL])[..|host|] == host;
      ShortInit(host);
      var body := host[..|host| - 1];
      JoinOfLabels(body);
      ReadsUpToEmpty(p, at, LabelsOf(body));
      JoinOfPrefix(LabelsOf(body), UpToEmpty(LabelsOf(body)));
    }
  }
}
