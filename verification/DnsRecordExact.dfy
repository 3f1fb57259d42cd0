/** Which records come back when what was written for them is read out of a packet. */
module DnsRecordExact {
  import opened Bytes
  import opened DnsName
  import opened DnsExpand
  import opened DnsNameExact
  import opened DnsRecord

  /** A good name, and, in a resource record, a 16-bit ttl and as much data as the length says. */
  predicate WellFormed(r: Record) {
    GoodName(r.name) && (r.Resource? ==> r.ttl < 0x1_0000 && r.dataLen == |r.rdata|)
  }

  /**
    The reader is at `r` where the writer was at `w`, and what it has not caught up with is zero:
    what happens after a name that reads as the lone NUL.
   */
  ghost predicate Behind(p: seq<byte>, r: nat, w: nat) {
    r <= w <= |p| && forall i :: r <= i < w ==> p[i] == 0
  }

  // ---------- fields ----------

  lemma TtlAt(p: seq<byte>, at: nat, ttl: dword)
    requires At(p, at, TtlImage(ttl))
    ensures At(p, at, Be16(ttl % 0x1_0000)) && at + 4 <= |p|
    ensures NetworkWord(p, at) == ttl % 0x1_0000
    ensures p[at + 2] == 0 && p[at + 3] == 0
  {
    var low: word := ttl % 0x1_0000;
    AtSplit(p, at, Be16(low), [0, 0]);
    WordAt(p, at, low);
    assert p[at + 2] == p[at + 2..at + 4][0] && p[at + 3] == p[at + 2..at + 4][1];
  }

  lemma TailAtParts(p: seq<byte>, w: nat, a: Record)
    requires a.Resource? && HasData(a) && At(p, w, TailImage(a))
    ensures At(p, w, TtlImage(a.ttl)) && At(p, w + 4, Be16(a.dataLen))
    ensures At(p, w + 6, a.rdata[..a.dataLen])
  {
    AtSplit3(p, w, TtlImage(a.ttl), Be16(a.dataLen), a.rdata[..a.dataLen]);
  }

  /** A 16-bit field read from behind its place, with nothing but zeros between, can only match as zero. */
  lemma FieldBehind(p: seq<byte>, r: nat, w: nat, v: word)
    requires r < w && Behind(p, r, w) && At(p, w, Be16(v))
    requires NetworkWord(p, r) == v
    ensures v == 0 && Behind(p, r + 2, w + 2)
  {
    WordAt(p, w, v);
    assert p[r] == 0;
    assert r + 1 < w ==> p[r + 1] == 0;
  }

  // ---------- a resource record's tail ----------

  lemma TailRoundTrip(p: seq<byte>, w: nat, a: Record, count: nat)
    requires a.Resource? && HasData(a) && At(p, w, TailImage(a))
    ensures TailAt(p, w, a.name, a.rtype, a.rclass, count)
         == Got(a.(ttl := a.ttl % 0x1_0000, rdata := a.rdata[..a.dataLen]), count + |TailImage(a)|)
  {
    TailAtParts(p, w, a);
    TtlAt(p, w, a.ttl);
    WordAt(p, w + 4, a.dataLen);
  }

  lemma TailBehind(p: seq<byte>, r: nat, w: nat, a: Record)
    requires a.Resource? && r < w && Behind(p, r, w) && HasData(a) && At(p, w, TailImage(a))
    requires r + 6 <= |p| && NetworkWord(p, r) == a.ttl && NetworkWord(p, r + 4) == a.dataLen
    ensures a.dataLen == 0 && |TailImage(a)| == 6 && Behind(p, r + 6, w + 6)
  {
    TailAtParts(p, w, a);
    TtlAt(p, w, a.ttl);
    TailFieldsBehind(p, r, w, a.ttl, a.dataLen);
    TailOfNothing(a);
  }

  lemma TailOfNothing(a: Record)
    requires a.Resource? && a.dataLen == 0
    ensures |TailImage(a)| == 6
  {
  }

  lemma TailFieldsBehind(p: seq<byte>, r: nat, w: nat, ttl: word, len: word)
    requires r < w && w + 6 <= |p| && Behind(p, r, w) && At(p, w, Be16(ttl)) && At(p, w + 4, Be16(len))
    requires p[w + 2] == 0 && p[w + 3] == 0
    requires NetworkWord(p, r) == ttl && NetworkWord(p, r + 4) == len
    ensures len == 0 && Behind(p, r + 6, w + 6)
  {
    FieldBehind(p, r, w, ttl);
    FieldBehind(p, r + 4, w + 4, len);
  }

  // ---------- whole records ----------

  lemma RecordAtParts(p: seq<byte>, w: nat, rec: Record)
    requires HasData(rec) && At(p, w, RecordImage(rec))
    ensures At(p, w, Encode(rec.name))
    ensures At(p, w + |Encode(rec.name)|, Be16(rec.rtype))
    ensures At(p, w + |Encode(rec.name)| + 2, Be16(rec.rclass))
    ensures At(p, w + |Encode(rec.name)| + 4, TailOf(rec))
  {
    AtSplit3(p, w, Encode(rec.name), FieldsImage(rec), TailOf(rec));
    AtSplit(p, w + |Encode(rec.name)|, Be16(rec.rtype), Be16(rec.rclass));
  }

  /** Read in its place, a record comes back unless its name, its ttl or its length is at fault. */
  lemma InPlace(p: seq<byte>, w: nat, rec: Record)
    requires HasData(rec) && At(p, w, RecordImage(rec)) && GoodName(rec.name)
    ensures RecordAt(p, w, rec.Question?)
         == Got(if rec.Question? then rec
                else rec.(ttl := rec.ttl % 0x1_0000, rdata := rec.rdata[..rec.dataLen]), |RecordImage(rec)|)
  {
    hide NameAt, Encode, GoodName, At, NetworkWord, TailAt;
    RecordAtParts(p, w, rec);
    NameRoundTrip(p, w, rec.name);
    var f := w + |Encode(rec.name)|;
    WordAt(p, f, rec.rtype);
    WordAt(p, f + 2, rec.rclass);
    if rec.Resource? {
      TailRoundTrip(p, f + 4, rec, |Encode(rec.name)| + 4);
    }
  }

  lemma WellFormedIsWhole(rec: Record)
    requires HasData(rec) && GoodName(rec.name)
    ensures WellFormed(rec)
       <==> rec == if rec.Question? then rec
                   else rec.(ttl := rec.ttl % 0x1_0000, rdata := rec.rdata[..rec.dataLen])
  {
  }

  lemma EncodedNul(text: seq<byte>)
    requires text == [NUL]
    ensures Encode(text) == [0, 0]
  {
    assert text[..|text| - 1] == [];
    assert Wire([[]]) == [0] + [] + Wire([]);
  }

  lemma SkipNul(p: seq<byte>, r: nat, w: nat, nuls: seq<byte>)
    requires Behind(p, r, w) && At(p, w, nuls) && nuls == [0, 0]
    ensures r + 1 < w + 2 && Behind(p, r + 1, w + 2)
  {
    assert p[w] == p[w..w + 2][0] && p[w + 1] == p[w..w + 2][1];
  }

  /** Once behind, or after the lone NUL, a matching record is all zeros and leaves the reader behind. */
  lemma LoneNul(p: seq<byte>, r: nat, w: nat, rec: Record, question: bool, count: nat)
    requires Behind(p, r, w) && HasData(rec) && At(p, w, RecordImage(rec))
    requires rec.name == [NUL] && NameAt(p, r) == Got([NUL], 1)
    requires RecordAt(p, r, question) == Got(rec, count)
    ensures r + count < w + |RecordImage(rec)| && Behind(p, r + count, w + |RecordImage(rec)|)
  {
    hide NameAt, RecordAt, Encode, TailImage, At, Behind, NetworkWord;
    RecordAtParts(p, w, rec);
    EncodedNul(rec.name);
    FieldsRead(p, r, rec, question, count);
    SkipNul(p, r, w, Encode(rec.name));
    FieldBehind(p, r + 1, w + 2, rec.rtype);
    FieldBehind(p, r + 3, w + 4, rec.rclass);
    if rec.Resource? {
      TailBehind(p, r + 5, w + 6, rec);
    }
  }

  /** What a record read from a lone NUL says of the words behind it. */
  lemma FieldsRead(p: seq<byte>, r: nat, rec: Record, question: bool, count: nat)
    requires NameAt(p, r) == Got([NUL], 1) && RecordAt(p, r, question) == Got(rec, count)
    ensures r + 5 <= |p| && NetworkWord(p, r + 1) == rec.rtype && NetworkWord(p, r + 3) == rec.rclass
    ensures if rec.Question? then count == 5
            else r + 11 <= |p| && NetworkWord(p, r + 5) == rec.ttl && NetworkWord(p, r + 9) == rec.dataLen
                 && count == 11 + rec.dataLen
  {
    hide NameAt, NetworkWord;
  }

  /**
    If the record read is the record written, then either the reader was in place and the record is
    well formed, or the reader ends up behind.
   */
  lemma RecordReadBack(p: seq<byte>, r: nat, w: nat, rec: Record, question: bool, count: nat)
    requires Behind(p, r, w) && HasData(rec) && At(p, w, RecordImage(rec)) && rec.Question? == question
    requires RecordAt(p, r, question) == Got(rec, count)
    ensures Behind(p, r + count, w + |RecordImage(rec)|)
    ensures r + count == w + |RecordImage(rec)| ==> r == w && WellFormed(rec)
  {
    if r < w {
      NulIsRead(p, r);
      LoneNul(p, r, w, rec, question, count);
    } else {
      assert r == w;
      if GoodName(rec.name) {
        InPlace(p, w, rec);
        WellFormedIsWhole(rec);
      } else {
        ReadsBadName(p, w, rec, question, count);
        LoneNul(p, w, w, rec, question, count);
      }
    }
  }

  lemma ReadsBadName(p: seq<byte>, w: nat, rec: Record, question: bool, count: nat)
    requires HasData(rec) && At(p, w, RecordImage(rec)) && !GoodName(rec.name)
    requires RecordAt(p, w, question) == Got(rec, count)
    ensures rec.name == [NUL] && NameAt(p, w) == Got([NUL], 1)
  {
    RecordAtParts(p, w, rec);
    NameReadBack(p, w, rec.name);
  }

  /** Exactly the well-formed records come back, with the length they were written with. */
  lemma RecordRoundTrip(p: seq<byte>, w: nat, rec: Record, question: bool)
    requires HasData(rec) && At(p, w, RecordImage(rec)) && rec.Question? == question
    ensures RecordAt(p, w, question) == Got(rec, |RecordImage(rec)|) <==> WellFormed(rec)
  {
    if GoodName(rec.name) {
      InPlace(p, w, rec);
      WellFormedIsWhole(rec);
    } else if RecordAt(p, w, question) == Got(rec, |RecordImage(rec)|) {
      RecordReadBack(p, w, w, rec, question, |RecordImage(rec)|);
    }
  }
}
