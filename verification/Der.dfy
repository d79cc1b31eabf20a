/**
 * The DER walk of the trust-store generator (_asn1_len, _asn1_children and
 * find_subject_dn in tools/gen_roots.py), with its two ways to fail: the
 * ValueError it raises itself, and the IndexError of reading past the end.
 *
 * DER lengths are section 8.1.3 of ITU-T X.690; the certificate's layout is
 * section 4.1 of RFC 5280.
 */
module Der {
  import opened Words

  datatype Py<T> = Ret(value: T) | ValueError | IndexError

  // ---------------------------------------------------------------------------
  // The walk
  // ---------------------------------------------------------------------------

  /** A slice, cut to the bytes there are. */
  function Slice(b: Bytes, i: nat, j: nat): Bytes {
    if i >= |b| || j <= i then [] else b[i..Min(j, |b|)]
  }

  /** The bytes b read on behind the number acc, most significant first. */
  function Digits256(acc: nat, b: Bytes): nat
    decreases b
  {
    if b == [] then acc else Digits256(0x100 * acc + b[0], b[1..])
  }

  /** int.from_bytes(b, "big"). */
  function BigEndian(b: Bytes): nat { Digits256(0, b) }

  datatype Span = Span(len: nat, start: nat)

  /** _asn1_len: the length at i, and where the contents start. */
  function Asn1Len(buf: Bytes, i: nat): (r: Py<Span>)
    ensures r.Ret? ==> r.value.start > i
  {
    if i >= |buf| then IndexError
    else if buf[i] < 0x80 then Ret(Span(buf[i], i + 1))
    else
      var k := buf[i] - 0x80;
      Ret(Span(BigEndian(Slice(buf, i + 1, i + 1 + k)), i + 1 + k))
  }

  /** What the walk yields: tag, index of the tag, start and length of the
      contents. */
  datatype Child = Child(tag: u8, hdr: nat, start: nat, len: nat)

  /** The children from index j up to end. */
  function ChildrenFrom(buf: Bytes, j: nat, end: nat): Py<seq<Child>>
    decreases |buf| - j
  {
    if j >= end then Ret([])
    else if j >= |buf| then IndexError
    else
      var l := Asn1Len(buf, j + 1);
      if !l.Ret? then IndexError
      else
        var rest := ChildrenFrom(buf, l.value.start + l.value.len, end);
        if rest.Ret? then Ret([Child(buf[j], j, l.value.start, l.value.len)] + rest.value) else rest
  }

  /** _asn1_children, collected. */
  function Children(buf: Bytes, i: nat): Py<seq<Child>> {
    if i >= |buf| then IndexError
    else if buf[i] != 0x30 && buf[i] != 0x31 then Ret([])
    else
      var l := Asn1Len(buf, i + 1);
      if !l.Ret? then IndexError else ChildrenFrom(buf, l.value.start, l.value.start + l.value.len)
  }

  /** The generator of _asn1_children run to its end, as list() runs it. */
  method ListChildren(buf: Bytes, i: nat) returns (r: Py<seq<Child>>)
    ensures r == Children(buf, i)
  {
    if i >= |buf| { return IndexError; }
    if buf[i] != 0x30 && buf[i] != 0x31 { return Ret([]); }
    var l := Asn1Len(buf, i + 1);
    if !l.Ret? { return IndexError; }
    var out: seq<Child> := [];
    var end := l.value.start + l.value.len;
    var j := l.value.start;
    assert ChildrenFrom(buf, j, end) == Before([], ChildrenFrom(buf, j, end)) by {
      var all := ChildrenFrom(buf, j, end);
      if all.Ret? { assert [] + all.value == all.value; }
    }
    while j < end
      invariant Children(buf, i) == Before(out, ChildrenFrom(buf, j, end))
      decreases |buf| - j
    {
      if j >= |buf| { return IndexError; }
      var m := Asn1Len(buf, j + 1);
      if !m.Ret? { return IndexError; }
      var c := Child(buf[j], j, m.value.start, m.value.len);
      ghost var rest := ChildrenFrom(buf, m.value.start + m.value.len, end);
      if rest.Ret? { assert (out + [c]) + rest.value == out + ([c] + rest.value); }
      out := out + [c];
      j := m.value.start + m.value.len;
    }
    assert out + [] == out;
    r := Ret(out);
  }

  function Before(out: seq<Child>, rest: Py<seq<Child>>): Py<seq<Child>> {
    if rest.Ret? then Ret(out + rest.value) else rest
  }

  /** Where a subject is: offset and length. */
  datatype Dn = Dn(off: nat, len: int)

  /** The choice find_subject_dn makes among the fields of the TBSCertificate. */
  function Choose(fields: seq<Child>): Py<Dn> {
    if fields == [] then ValueError
    else
      var idx := (if fields[0].tag == 0xA0 then 1 else 0) + 4;
      if idx >= |fields| || fields[idx].tag != 0x30 || idx + 1 >= |fields| then ValueError
      else Ret(Dn(fields[idx].hdr, fields[idx + 1].hdr - fields[idx].hdr))
  }

  /** find_subject_dn. */
  function FindSubjectDn(der: Bytes): Py<Dn> {
    var kids := Children(der, 0);
    if !kids.Ret? then IndexError
    else if kids.value == [] then ValueError
    else
      var fields := Children(der, kids.value[0].hdr);
      if fields.Ret? then Choose(fields.value) else IndexError
  }

  // ---------------------------------------------------------------------------
  // Anything accepted is in bounds
  // ---------------------------------------------------------------------------

  /** The children of a walk lie in order inside the buffer, each at least two
      bytes from the next. */
  lemma {:induction false} HeadersGrow(buf: Bytes, j: nat, end: nat)
    requires ChildrenFrom(buf, j, end).Ret?
    ensures var cs := ChildrenFrom(buf, j, end).value;
            && (forall x :: 0 <= x < |cs| ==> j <= cs[x].hdr < |buf| && buf[cs[x].hdr] == cs[x].tag)
            && (forall x :: 0 <= x < |cs| - 1 ==> cs[x].hdr + 2 <= cs[x + 1].hdr)
            && (cs != [] ==> cs[0].hdr == j)
    decreases |buf| - j
  {
    if j < end {
      var l := Asn1Len(buf, j + 1).value;
      HeadersGrow(buf, l.start + l.len, end);
      var cs, rest := ChildrenFrom(buf, j, end).value, ChildrenFrom(buf, l.start + l.len, end).value;
      forall x | 0 <= x < |cs| - 1 ensures cs[x].hdr + 2 <= cs[x + 1].hdr {
        if x > 0 { assert cs[x] == rest[x - 1] && cs[x + 1] == rest[x]; }
      }
    }
  }

  lemma ChildrenGrow(buf: Bytes, i: nat)
    requires Children(buf, i).Ret?
    ensures var cs := Children(buf, i).value;
            && (forall x :: 0 <= x < |cs| ==> i < cs[x].hdr < |buf| && buf[cs[x].hdr] == cs[x].tag)
            && (forall x :: 0 <= x < |cs| - 1 ==> cs[x].hdr + 2 <= cs[x + 1].hdr)
            && (cs != [] ==> buf[i] == 0x30 || buf[i] == 0x31)
  {
    if buf[i] == 0x30 || buf[i] == 0x31 {
      var l := Asn1Len(buf, i + 1).value;
      HeadersGrow(buf, l.start, l.start + l.len);
    }
  }

  /** Whatever the bytes, a subject that is found starts with a SEQUENCE tag, has
      at least a tag and a length, and lies inside a buffer that starts with the
      tag of a SEQUENCE or a SET. */
  lemma FoundIsInside(der: Bytes)
    requires FindSubjectDn(der).Ret?
    ensures var d := FindSubjectDn(der).value;
            && 0 < d.off && 2 <= d.len && d.off + d.len < |der| && der[d.off] == 0x30
            && (der[0] == 0x30 || der[0] == 0x31)
  {
    ChildrenGrow(der, 0);
    ChildrenGrow(der, Children(der, 0).value[0].hdr);
  }

  // ---------------------------------------------------------------------------
  // Encoded certificates
  // ---------------------------------------------------------------------------

  /** b encodes the length n in the definite form, short or long, the long form
      with any number of leading zeros. */
  predicate EncodesLen(b: Bytes, n: nat) {
    || (|b| == 1 && n < 0x80 && b[0] == n)
    || (2 <= |b| <= 0x80 && b[0] == 0x80 + (|b| - 1) && BigEndian(b[1..]) == n)
  }

  datatype Tlv = Tlv(tag: u8, len: Bytes, content: Bytes)

  predicate WellFormed(t: Tlv) { EncodesLen(t.len, |t.content|) }

  predicate AllWellFormed(ts: seq<Tlv>) { forall i :: 0 <= i < |ts| ==> WellFormed(ts[i]) }

  function Encode(t: Tlv): Bytes { [t.tag] + t.len + t.content }

  function EncodeAll(ts: seq<Tlv>): Bytes {
    if ts == [] then [] else Encode(ts[0]) + EncodeAll(ts[1..])
  }

  /** The children the walk is to find when the encodings start at index at. */
  function Spans(ts: seq<Tlv>, at: nat): (r: seq<Child>)
    ensures |r| == |ts|
  {
    if ts == [] then []
    else [Child(ts[0].tag, at, at + 1 + |ts[0].len|, |ts[0].content|)] + Spans(ts[1..], at + |Encode(ts[0])|)
  }

  /** buf has the bytes of part from index at on. */
  predicate Has(buf: Bytes, at: nat, part: Bytes) {
    at + |part| <= |buf| && buf[at..at + |part|] == part
  }

  lemma HasSplit(buf: Bytes, at: nat, a: Bytes, b: Bytes)
    requires Has(buf, at, a + b)
    ensures Has(buf, at, a) && Has(buf, at + |a|, b)
  {
    var w := buf[at..at + |a + b|];
    assert w[..|a|] == a && w[|a|..] == b;
    assert buf[at..at + |a|] == w[..|a|];
    assert buf[at + |a|..at + |a| + |b|] == w[|a|..];
  }

  lemma HasFirst(buf: Bytes, at: nat, part: Bytes)
    requires Has(buf, at, part) && part != []
    ensures buf[at] == part[0]
  {
    assert buf[at..at + |part|][0] == buf[at];
  }

  lemma HasTlv(buf: Bytes, at: nat, t: Tlv)
    requires Has(buf, at, Encode(t))
    ensures buf[at] == t.tag && Has(buf, at + 1, t.len) && Has(buf, at + 1 + |t.len|, t.content)
  {
    HasSplit(buf, at, [t.tag] + t.len, t.content);
    HasSplit(buf, at, [t.tag], t.len);
    HasFirst(buf, at, [t.tag]);
  }

  /** Reading back an encoded length, whatever is around it. */
  lemma LenReadsBack(buf: Bytes, i: nat, b: Bytes, n: nat)
    requires EncodesLen(b, n) && Has(buf, i, b)
    ensures Asn1Len(buf, i) == Ret(Span(n, i + |b|))
  {
    HasFirst(buf, i, b);
    if |b| > 1 {
      assert b[..1] + b[1..] == b;
      HasSplit(buf, i, b[..1], b[1..]);
    }
  }

  /** The tag and length of an encoding read back as the child they announce. */
  lemma ChildReadsBack(buf: Bytes, at: nat, t: Tlv) returns (c: Child)
    requires WellFormed(t) && Has(buf, at, Encode(t))
    ensures c == Child(t.tag, at, at + 1 + |t.len|, |t.content|) && c.start + c.len == at + |Encode(t)|
    ensures at < |buf| && buf[at] == c.tag && Asn1Len(buf, at + 1) == Ret(Span(c.len, c.start))
  {
    HasTlv(buf, at, t);
    LenReadsBack(buf, at + 1, t.len, |t.content|);
    c := Child(t.tag, at, at + 1 + |t.len|, |t.content|);
  }

  /** One step of the walk. */
  lemma WalkStep(buf: Bytes, at: nat, start: nat, len: nat, end: nat, rest: Py<seq<Child>>)
    requires at < |buf| && at < end && Asn1Len(buf, at + 1) == Ret(Span(len, start))
    requires ChildrenFrom(buf, start + len, end) == rest && !rest.ValueError?
    ensures ChildrenFrom(buf, at, end) == Before([Child(buf[at], at, start, len)], rest)
  {
  }

  lemma SpansStep(ts: seq<Tlv>, at: nat, c: Child, mid: nat)
    requires ts != [] && c == Child(ts[0].tag, at, at + 1 + |ts[0].len|, |ts[0].content|) && mid == at + |Encode(ts[0])|
    ensures Spans(ts, at) == [c] + Spans(ts[1..], mid)
  {
  }

  lemma RestIsBehind(buf: Bytes, at: nat, ts: seq<Tlv>)
    requires ts != [] && Has(buf, at, EncodeAll(ts))
    ensures Has(buf, at, Encode(ts[0])) && Has(buf, at + |Encode(ts[0])|, EncodeAll(ts[1..]))
    ensures |EncodeAll(ts)| == |Encode(ts[0])| + |EncodeAll(ts[1..])|
  {
    HasSplit(buf, at, Encode(ts[0]), EncodeAll(ts[1..]));
  }

  /** The walk over several encodings, from the walk over all but the first: whole,
      or out of bytes. */
  lemma WalkOn(buf: Bytes, at: nat, ts: seq<Tlv>, c: Child, mid: nat, end: nat, whole: bool)
    requires ts != [] && c == Child(ts[0].tag, at, at + 1 + |ts[0].len|, |ts[0].content|)
    requires mid == at + |Encode(ts[0])| && mid == c.start + c.len && mid <= end
    requires at < |buf| && buf[at] == c.tag && Asn1Len(buf, at + 1) == Ret(Span(c.len, c.start))
    requires ChildrenFrom(buf, mid, end) == if whole then Ret(Spans(ts[1..], mid)) else IndexError
    ensures ChildrenFrom(buf, at, end) == if whole then Ret(Spans(ts, at)) else IndexError
  {
    SpansStep(ts, at, c, mid);
    WalkStep(buf, at, c.start, c.len, end, if whole then Ret(Spans(ts[1..], mid)) else IndexError);
  }

  lemma {:induction false} WalkFindsAll(buf: Bytes, at: nat, ts: seq<Tlv>, end: nat)
    requires AllWellFormed(ts) && Has(buf, at, EncodeAll(ts)) && end == at + |EncodeAll(ts)|
    ensures ChildrenFrom(buf, at, end) == Ret(Spans(ts, at))
    decreases ts
  {
    if ts != [] {
      var mid := at + |Encode(ts[0])|;
      RestIsBehind(buf, at, ts);
      WalkFindsAll(buf, mid, ts[1..], end);
      var c := ChildReadsBack(buf, at, ts[0]);
      WalkOn(buf, at, ts, c, mid, end, true);
    }
  }

  /** A certificate: outer SEQUENCE, in it the TBSCertificate and what follows
      it.  Either SEQUENCE may as well be a SET for the walk. */
  datatype Cert = Cert(tag: u8, len: Bytes, tbsTag: u8, tbsLen: Bytes, fields: seq<Tlv>, after: seq<Tlv>)

  function Tbs(c: Cert): Tlv { Tlv(c.tbsTag, c.tbsLen, EncodeAll(c.fields)) }

  function Outer(c: Cert): Tlv { Tlv(c.tag, c.len, EncodeAll([Tbs(c)] + c.after)) }

  predicate IsSequence(tag: u8) { tag == 0x30 || tag == 0x31 }

  predicate WellFormedCert(c: Cert) {
    && IsSequence(c.tag) && IsSequence(c.tbsTag)
    && WellFormed(Outer(c)) && WellFormed(Tbs(c)) && AllWellFormed(c.fields) && AllWellFormed(c.after)
  }

  /** Where the fields of the TBSCertificate start. */
  function FieldsAt(c: Cert): nat { 1 + |c.len| + 1 + |c.tbsLen| }

  function OffsetOf(ts: seq<Tlv>, k: nat): nat
    requires k <= |ts|
  {
    if k == 0 then 0 else |Encode(ts[0])| + OffsetOf(ts[1..], k - 1)
  }

  lemma {:induction false} SpanAt(ts: seq<Tlv>, at: nat, k: nat)
    requires k < |ts|
    ensures Spans(ts, at)[k] == Child(ts[k].tag, at + OffsetOf(ts, k), at + OffsetOf(ts, k) + 1 + |ts[k].len|, |ts[k].content|)
    ensures OffsetOf(ts, k + 1) == OffsetOf(ts, k) + |Encode(ts[k])|
    decreases k
  {
    if k > 0 { SpanAt(ts[1..], at + |Encode(ts[0])|, k - 1); }
  }

  lemma {:induction false} EncodingAt(buf: Bytes, at: nat, ts: seq<Tlv>, k: nat)
    requires k < |ts| && Has(buf, at, EncodeAll(ts))
    ensures Has(buf, at + OffsetOf(ts, k), Encode(ts[k]))
    decreases k
  {
    HasSplit(buf, at, Encode(ts[0]), EncodeAll(ts[1..]));
    if k > 0 { EncodingAt(buf, at + |Encode(ts[0])|, ts[1..], k - 1); }
  }

  /** The encoding of a certificate has its fields where they should be. */
  lemma CertParts(c: Cert, buf: Bytes)
    requires Has(buf, 0, Encode(Outer(c)))
    ensures buf[0] == c.tag && Has(buf, 1, c.len)
    ensures Has(buf, 1 + |c.len|, EncodeAll([Tbs(c)] + c.after))
    ensures buf[1 + |c.len|] == c.tbsTag && Has(buf, 2 + |c.len|, c.tbsLen)
    ensures Has(buf, FieldsAt(c), EncodeAll(c.fields))
  {
    HasTlv(buf, 0, Outer(c));
    assert ([Tbs(c)] + c.after)[1..] == c.after;
    HasSplit(buf, 1 + |c.len|, Encode(Tbs(c)), EncodeAll(c.after));
    HasTlv(buf, 1 + |c.len|, Tbs(c));
  }

  /** The walk over one constructed encoding finds its children. */
  lemma SequenceWalk(buf: Bytes, i: nat, ts: seq<Tlv>, at: nat, n: nat)
    requires i < |buf| && IsSequence(buf[i]) && n == |EncodeAll(ts)| && Asn1Len(buf, i + 1) == Ret(Span(n, at))
    requires AllWellFormed(ts) && Has(buf, at, EncodeAll(ts))
    ensures Children(buf, i) == Ret(Spans(ts, at))
  {
    WalkFindsAll(buf, at, ts, at + n);
    ChildrenAre(buf, i, at, n, Spans(ts, at));
  }

  lemma ChildrenAre(buf: Bytes, i: nat, start: nat, len: nat, cs: seq<Child>)
    requires i < |buf| && IsSequence(buf[i]) && Asn1Len(buf, i + 1) == Ret(Span(len, start))
    requires ChildrenFrom(buf, start, start + len) == Ret(cs)
    ensures Children(buf, i) == Ret(cs)
  {
  }

  lemma CertLengths(c: Cert, buf: Bytes)
    requires WellFormedCert(c) && Has(buf, 1, c.len) && Has(buf, 2 + |c.len|, c.tbsLen)
    ensures Asn1Len(buf, 1) == Ret(Span(|EncodeAll([Tbs(c)] + c.after)|, 1 + |c.len|))
    ensures Asn1Len(buf, 2 + |c.len|) == Ret(Span(|EncodeAll(c.fields)|, FieldsAt(c)))
  {
    LenReadsBack(buf, 1, c.len, |EncodeAll([Tbs(c)] + c.after)|);
    LenReadsBack(buf, 2 + |c.len|, c.tbsLen, |EncodeAll(c.fields)|);
  }

  lemma OuterWalk(c: Cert, buf: Bytes)
    requires AllWellFormed(c.after) && WellFormed(Tbs(c)) && IsSequence(c.tag)
    requires buf != [] && buf[0] == c.tag && Has(buf, 1 + |c.len|, EncodeAll([Tbs(c)] + c.after))
    requires Asn1Len(buf, 1) == Ret(Span(|EncodeAll([Tbs(c)] + c.after)|, 1 + |c.len|))
    ensures Children(buf, 0) == Ret(Spans([Tbs(c)] + c.after, 1 + |c.len|))
  {
    var kids := [Tbs(c)] + c.after;
    forall i | 0 <= i < |kids| ensures WellFormed(kids[i]) { assert i > 0 ==> kids[i] == c.after[i - 1]; }
    SequenceWalk(buf, 0, kids, 1 + |c.len|, |EncodeAll(kids)|);
  }

  /** The walk over a certificate, with anything after it: the first child is the
      TBSCertificate, and its children are the fields. */
  lemma WalkOfCert(c: Cert, buf: Bytes)
    requires WellFormedCert(c) && Has(buf, 0, Encode(Outer(c)))
    ensures Children(buf, 0) == Ret(Spans([Tbs(c)] + c.after, 1 + |c.len|))
    ensures Children(buf, 1 + |c.len|) == Ret(Spans(c.fields, FieldsAt(c)))
  {
    CertParts(c, buf);
    CertLengths(c, buf);
    OuterWalk(c, buf);
    SequenceWalk(buf, 1 + |c.len|, c.fields, FieldsAt(c), |EncodeAll(c.fields)|);
  }

  /** So find_subject_dn chooses among the fields. */
  lemma ChoiceOfCert(c: Cert, buf: Bytes)
    requires WellFormedCert(c) && Has(buf, 0, Encode(Outer(c)))
    ensures FindSubjectDn(buf) == Choose(Spans(c.fields, FieldsAt(c)))
  {
    WalkOfCert(c, buf);
    SpanAt([Tbs(c)] + c.after, 1 + |c.len|, 0);
  }

  /** Index of the subject among the fields. */
  function SubjectIndex(c: Cert): nat {
    (if c.fields != [] && c.fields[0].tag == 0xA0 then 1 else 0) + 4
  }

  /** Is there a subject for find_subject_dn: a SEQUENCE in the subject's place,
      with another field after it? */
  predicate HasSubject(c: Cert) {
    var k := SubjectIndex(c);
    k + 1 < |c.fields| && c.fields[k].tag == 0x30
  }

  lemma ChooseSubject(c: Cert, at: nat)
    ensures var k := SubjectIndex(c);
            Choose(Spans(c.fields, at)) ==
            if HasSubject(c) then Ret(Dn(at + OffsetOf(c.fields, k), |Encode(c.fields[k])|)) else ValueError
  {
    var k := SubjectIndex(c);
    if c.fields != [] { SpanAt(c.fields, at, 0); }
    if k < |c.fields| { SpanAt(c.fields, at, k); }
    if k + 1 < |c.fields| { SpanAt(c.fields, at, k + 1); }
  }

  lemma SubjectIsThere(c: Cert, buf: Bytes)
    requires Has(buf, 0, Encode(Outer(c))) && HasSubject(c)
    ensures var k := SubjectIndex(c); Has(buf, FieldsAt(c) + OffsetOf(c.fields, k), Encode(c.fields[k]))
  {
    CertParts(c, buf);
    EncodingAt(buf, FieldsAt(c), c.fields, SubjectIndex(c));
  }

  lemma ChosenSubject(c: Cert, buf: Bytes, r: Py<Dn>)
    requires Has(buf, 0, Encode(Outer(c))) && r == Choose(Spans(c.fields, FieldsAt(c)))
    ensures FoundAsEncoded(c, buf, r)
  {
    ChooseSubject(c, FieldsAt(c));
    if HasSubject(c) { SubjectIsThere(c, buf); }
  }

  /** r is the place of the subject's whole encoding, or a ValueError when there is
      no subject. */
  predicate FoundAsEncoded(c: Cert, buf: Bytes, r: Py<Dn>) {
    if HasSubject(c) then
      var k := SubjectIndex(c);
      var e := Encode(c.fields[k]);
      r == Ret(Dn(FieldsAt(c) + OffsetOf(c.fields, k), |e|)) && Has(buf, r.value.off, e)
    else r == ValueError
  }

  /**
   * On every certificate built by definite-length encoding, lengths short or long,
   * version field present or not, whatever comes after it: find_subject_dn gives
   * the offset and length of the subject's whole encoding, and a ValueError
   * exactly when there is no subject.
   */
  lemma SubjectFoundIff(c: Cert, buf: Bytes)
    requires WellFormedCert(c) && Has(buf, 0, Encode(Outer(c)))
    ensures FoundAsEncoded(c, buf, FindSubjectDn(buf))
  {
    ChoiceOfCert(c, buf);
    ChosenSubject(c, buf, FindSubjectDn(buf));
  }

  // ---------------------------------------------------------------------------
  // When the walk runs out of bytes
  // ---------------------------------------------------------------------------

  /** Index behind the encoding at p, by its tag and length bytes alone. */
  function Behind(buf: Bytes, p: nat): nat
    requires p + 2 <= |buf|
  {
    var b := buf[p + 1];
    if b < 0x80 then p + 2 + b
    else p + 2 + (b - 0x80) + BigEndian(Slice(buf, p + 2, p + 2 + (b - 0x80)))
  }

  /** The headers from j on: each below the end, each behind the one before it. */
  predicate Headers(buf: Bytes, j: nat, end: nat, at: seq<nat>) {
    && at != [] && at[0] == j
    && (forall i :: 0 <= i < |at| ==> at[i] < end)
    && (forall i :: 0 <= i < |at| - 1 ==> at[i] + 2 <= |buf| && at[i + 1] == Behind(buf, at[i]))
  }

  /** The last of them has not both its tag and a length byte in the buffer. */
  predicate Lacks(buf: Bytes, j: nat, end: nat, at: seq<nat>) {
    Headers(buf, j, end, at) && at[|at| - 1] + 2 > |buf|
  }

  ghost predicate RunsOut(buf: Bytes, j: nat, end: nat) {
    exists at: seq<nat> :: Lacks(buf, j, end, at)
  }

  lemma LenIsBehind(buf: Bytes, p: nat)
    requires p < |buf|
    ensures Asn1Len(buf, p + 1).Ret? <==> p + 2 <= |buf|
    ensures p + 2 <= |buf| ==> Asn1Len(buf, p + 1).value.start + Asn1Len(buf, p + 1).value.len == Behind(buf, p)
    ensures p + 2 <= |buf| ==> p + 2 <= Asn1Len(buf, p + 1).value.start
  {
  }

  lemma OneHeaderMore(buf: Bytes, j: nat, end: nat)
    requires j + 2 <= |buf| && j < end
    ensures RunsOut(buf, j, end) <==> RunsOut(buf, Behind(buf, j), end)
  {
    var next := Behind(buf, j);
    if RunsOut(buf, j, end) {
      var at: seq<nat> :| Lacks(buf, j, end, at);
      assert |at| > 1;
      assert at[1] == next;
      assert Lacks(buf, next, end, at[1..]) by {
        assert forall i :: 0 <= i < |at| - 1 ==> at[1..][i] == at[i + 1];
      }
    }
    if RunsOut(buf, next, end) {
      var at: seq<nat> :| Lacks(buf, next, end, at);
      var more := [j] + at;
      assert forall i :: 0 < i < |more| ==> more[i] == at[i - 1];
      assert Lacks(buf, j, end, more);
    }
  }

  /** The walk from j raises an IndexError exactly when it runs out. */
  lemma {:induction false} WalkFailsIff(buf: Bytes, j: nat, end: nat)
    ensures ChildrenFrom(buf, j, end).Ret? || ChildrenFrom(buf, j, end) == IndexError
    ensures ChildrenFrom(buf, j, end) == IndexError <==> RunsOut(buf, j, end)
    decreases |buf| - j
  {
    if j >= end {
      assert !RunsOut(buf, j, end);
    } else if j + 2 > |buf| {
      assert Lacks(buf, j, end, [j]);
      if j < |buf| { LenIsBehind(buf, j); }
    } else {
      LenIsBehind(buf, j);
      WalkFailsIff(buf, Behind(buf, j), end);
      OneHeaderMore(buf, j, end);
    }
  }

  /** Where the contents of the encoding at p start. */
  function Inside(buf: Bytes, p: nat): nat
    requires p + 2 <= |buf|
  {
    p + 2 + (if buf[p + 1] < 0x80 then 0 else buf[p + 1] - 0x80)
  }

  /** The walk over the children of the encoding at p runs out. */
  ghost predicate ElementRunsOut(buf: Bytes, p: nat) {
    && p < |buf| && IsSequence(buf[p])
    && (p + 2 > |buf| || RunsOut(buf, Inside(buf, p), Behind(buf, p)))
  }

  /** The walk over an element whose tag and first length byte are there. */
  lemma ElementWalks(buf: Bytes, p: nat)
    requires p + 2 <= |buf| && IsSequence(buf[p])
    ensures Children(buf, p) == ChildrenFrom(buf, Inside(buf, p), Behind(buf, p))
  {
    var len := LenIs(buf, p);
    ChildrenFollow(buf, p, Inside(buf, p), len, ChildrenFrom(buf, Inside(buf, p), Behind(buf, p)));
  }

  lemma LenIs(buf: Bytes, p: nat) returns (len: nat)
    requires p + 2 <= |buf|
    ensures Asn1Len(buf, p + 1) == Ret(Span(len, Inside(buf, p))) && Inside(buf, p) + len == Behind(buf, p)
  {
    len := Asn1Len(buf, p + 1).value.len;
  }

  lemma NoElement(buf: Bytes, p: nat)
    requires p < |buf|
    ensures !IsSequence(buf[p]) ==> Children(buf, p) == Ret([])
    ensures IsSequence(buf[p]) && p + 2 > |buf| ==> Children(buf, p) == IndexError
  {
  }

  lemma ElementFailsIff(buf: Bytes, p: nat)
    requires p < |buf|
    ensures Children(buf, p).Ret? || Children(buf, p) == IndexError
    ensures Children(buf, p) == IndexError <==> ElementRunsOut(buf, p)
  {
    if IsSequence(buf[p]) && p + 2 <= |buf| {
      ElementWalks(buf, p);
      WalkFailsIff(buf, Inside(buf, p), Behind(buf, p));
    } else {
      NoElement(buf, p);
    }
  }

  /** The encoding at 0 has a child: its first header, complete, is below its end. */
  predicate HasElement(buf: Bytes) {
    |buf| >= 2 && IsSequence(buf[0]) && Inside(buf, 0) < Behind(buf, 0) && Inside(buf, 0) + 2 <= |buf|
  }

  /** The bytes run out under find_subject_dn: there are none; or a SEQUENCE has no
      length byte; or the walk over its elements, or the one over the first
      element's, stands at a header that is not all there. */
  ghost predicate Starved(der: Bytes) {
    der == [] || ElementRunsOut(der, 0) || (HasElement(der) && ElementRunsOut(der, Inside(der, 0)))
  }

  lemma FirstChild(der: Bytes)
    requires der != [] && Children(der, 0).Ret?
    ensures Children(der, 0).value != [] <==> HasElement(der)
    ensures HasElement(der) ==> Children(der, 0).value[0].hdr == Inside(der, 0)
  {
    if IsSequence(der[0]) {
      LenIsBehind(der, 0);
      HeadersGrow(der, Inside(der, 0), Behind(der, 0));
    }
  }

  /**
   * find_subject_dn raises the IndexError, on any bytes at all, if and only if they
   * run out; otherwise it finds a subject or raises the ValueError parse_pem
   * handles.
   */
  lemma IndexErrorIff(der: Bytes)
    ensures FindSubjectDn(der) == IndexError <==> Starved(der)
  {
    if der != [] {
      ElementFailsIff(der, 0);
      if Children(der, 0).Ret? {
        FirstChild(der);
        if HasElement(der) { ElementFailsIff(der, Inside(der, 0)); }
      }
    }
  }

  // ---------------------------------------------------------------------------
  // Certificates cut short
  // ---------------------------------------------------------------------------

  lemma {:induction false} DigitsGrow(acc: nat, b: Bytes)
    ensures Digits256(acc, b) >= acc && (b != [] ==> Digits256(acc, b) >= 0x100 * acc + b[0])
    decreases b
  {
    if b != [] { DigitsGrow(0x100 * acc + b[0], b[1..]); }
  }

  lemma {:induction false} DigitsAppend(acc: nat, a: Bytes, b: Bytes)
    ensures Digits256(acc, a + b) == Digits256(Digits256(acc, a), b)
    decreases a
  {
    if a == [] {
      assert a + b == b;
    } else {
      assert (a + b)[0] == a[0] && (a + b)[1..] == a[1..] + b;
      DigitsAppend(0x100 * acc + a[0], a[1..], b);
    }
  }

  /** A number that has lost digits at its end is smaller, unless it was 0. */
  lemma LostDigits(d: Bytes, k: nat)
    requires k < |d|
    ensures BigEndian(d) == 0 ==> BigEndian(d[..k]) == 0
    ensures BigEndian(d) > 0 ==> BigEndian(d[..k]) < BigEndian(d)
  {
    assert d == d[..k] + d[k..];
    DigitsAppend(0, d[..k], d[k..]);
    DigitsGrow(BigEndian(d[..k]), d[k..]);
  }

  /** Of a TLV at q all the header is within the first n bytes; of one without
      contents the first length byte will do. */
  predicate HeaderThere(t: Tlv, q: nat, n: nat) {
    q + 2 <= n && (q + 1 + |t.len| <= n || t.content == [])
  }

  /** The last one of them starts here. */
  function LastAt(ts: seq<Tlv>, at: nat): nat
    requires ts != []
  {
    at + OffsetOf(ts, |ts| - 1)
  }

  predicate LastThere(ts: seq<Tlv>, at: nat, n: nat) {
    ts != [] ==> HeaderThere(ts[|ts| - 1], LastAt(ts, at), n)
  }

  /** The length read where the bytes end within the length field. */
  lemma CutLength(e: Bytes, i: nat, b: Bytes, len: nat, n: nat)
    requires EncodesLen(b, len) && Has(e, i, b) && i < n < i + |b| && n <= |e|
    ensures Asn1Len(e[..n], i) == Ret(Span(BigEndian(b[1..n - i]), i + |b|))
    ensures len == 0 ==> BigEndian(b[1..n - i]) == 0
    ensures len > 0 ==> BigEndian(b[1..n - i]) < len
  {
    HasFirst(e, i, b);
    var buf := e[..n];
    assert b == b[..1] + b[1..];
    HasSplit(e, i, b[..1], b[1..]);
    assert b[1..n - i] == b[1..][..n - i - 1] == e[i + 1..i + |b|][..n - i - 1] == buf[i + 1..n];
    assert Slice(buf, i + 1, i + |b|) == buf[i + 1..n];
    assert b[1..][..n - i - 1] == b[1..n - i];
    LostDigits(b[1..], n - i - 1);
  }

  lemma HasInPrefix(e: Bytes, at: nat, part: Bytes, n: nat)
    requires Has(e, at, part) && at + |part| <= n <= |e|
    ensures Has(e[..n], at, part)
  {
    assert e[..n][at..at + |part|] == e[at..at + |part|];
  }

  /** What the walk makes of the first header. */
  lemma CutHeader(e: Bytes, at: nat, t: Tlv, n: nat) returns (len: nat)
    requires WellFormed(t) && Has(e, at, Encode(t)) && at + 2 <= n <= |e|
    ensures e[..n][at] == t.tag && Asn1Len(e[..n], at + 1) == Ret(Span(len, at + 1 + |t.len|))
    ensures HeaderThere(t, at, n) ==> len == |t.content|
    ensures !HeaderThere(t, at, n) ==> len < |t.content| && n < at + 1 + |t.len|
  {
    HasTlv(e, at, t);
    if at + 1 + |t.len| <= n {
      HasInPrefix(e, at + 1, t.len, n);
      LenReadsBack(e[..n], at + 1, t.len, |t.content|);
      len := |t.content|;
    } else {
      CutLength(e, at + 1, t.len, |t.content|, n);
      len := BigEndian(t.len[1..n - at - 1]);
    }
  }

  lemma LastIsLater(ts: seq<Tlv>, at: nat, n: nat)
    requires ts != []
    ensures LastThere(ts, at, n) ==> at + 2 <= n
    ensures |ts| == 1 ==> (LastThere(ts, at, n) <==> HeaderThere(ts[0], at, n))
    ensures |ts| > 1 ==> (LastThere(ts, at, n) <==> LastThere(ts[1..], at + |Encode(ts[0])|, n))
  {
  }

  lemma StartsBeyond(buf: Bytes, j: nat, end: nat)
    requires |buf| < j + 2 && j < end
    ensures ChildrenFrom(buf, j, end) == IndexError
  {
  }

  /** What the walk over the first n bytes yields. */
  function CutSpans(ts: seq<Tlv>, at: nat, n: nat): Py<seq<Child>> {
    if LastThere(ts, at, n) then Ret(Spans(ts, at)) else IndexError
  }

  /** The walk stops in the first header. */
  lemma CutInHeader(e: Bytes, at: nat, ts: seq<Tlv>, end: nat, n: nat)
    requires ts != [] && WellFormed(ts[0]) && Has(e, at, Encode(ts[0])) && n <= |e|
    requires at + |Encode(ts[0])| <= end && !HeaderThere(ts[0], at, n)
    ensures ChildrenFrom(e[..n], at, end) == IndexError
  {
    if n < at + 2 {
      StartsBeyond(e[..n], at, end);
    } else {
      var len := CutHeader(e, at, ts[0], n);
      StartsBeyond(e[..n], at + 1 + |ts[0].len| + len, end);
    }
  }

  lemma LastNotThere(ts: seq<Tlv>, at: nat, n: nat)
    requires ts != [] && !HeaderThere(ts[0], at, n)
    ensures !LastThere(ts, at, n)
  {
    LastIsLater(ts, at, n);
    if |ts| > 1 { LastIsLater(ts[1..], at + |Encode(ts[0])|, n); }
  }

  /** The walk goes on behind the first header, which is there. */
  lemma CutWalkOn(e: Bytes, at: nat, ts: seq<Tlv>, mid: nat, end: nat, n: nat, whole: bool)
    requires ts != [] && WellFormed(ts[0]) && Has(e, at, Encode(ts[0])) && n <= |e| && HeaderThere(ts[0], at, n)
    requires mid == at + |Encode(ts[0])| <= end
    requires ChildrenFrom(e[..n], mid, end) == if whole then Ret(Spans(ts[1..], mid)) else IndexError
    ensures ChildrenFrom(e[..n], at, end) == if whole then Ret(Spans(ts, at)) else IndexError
  {
    var len := CutHeader(e, at, ts[0], n);
    WalkOn(e[..n], at, ts, Child(ts[0].tag, at, at + 1 + |ts[0].len|, len), mid, end, whole);
  }

  lemma LastOfRest(ts: seq<Tlv>, at: nat, n: nat)
    requires ts != [] && HeaderThere(ts[0], at, n)
    ensures LastThere(ts, at, n) <==> LastThere(ts[1..], at + |Encode(ts[0])|, n)
  {
    LastIsLater(ts, at, n);
  }

  /** The walk over encodings of which only the first n bytes are there: whole if
      the last one's header is, otherwise an IndexError. */
  lemma {:induction false} CutWalk(e: Bytes, at: nat, ts: seq<Tlv>, end: nat, n: nat)
    requires AllWellFormed(ts) && Has(e, at, EncodeAll(ts)) && end == at + |EncodeAll(ts)| && n <= |e|
    ensures ChildrenFrom(e[..n], at, end) == CutSpans(ts, at, n)
    decreases ts
  {
    if ts != [] {
      var mid := at + |Encode(ts[0])|;
      RestIsBehind(e, at, ts);
      if HeaderThere(ts[0], at, n) {
        CutWalk(e, mid, ts[1..], end, n);
        LastOfRest(ts, at, n);
        CutWalkOn(e, at, ts, mid, end, n, LastThere(ts[1..], mid, n));
      } else {
        CutInHeader(e, at, ts, end, n);
        LastNotThere(ts, at, n);
      }
    }
  }

  /** Fewer bytes than the outer length field takes up. */
  lemma CutInOuterLength(c: Cert, e: Bytes, n: nat)
    requires WellFormedCert(c) && e == Encode(Outer(c)) && n < 1 + |c.len|
    ensures FindSubjectDn(e[..n]) == if 2 <= n && BigEndian(c.len[1..n - 1]) == 0 then ValueError else IndexError
  {
    var buf := e[..n];
    if n >= 1 {
      assert e[0..|e|] == e;
      HasTlv(e, 0, Outer(c));
      if n >= 2 {
        CutLength(e, 1, c.len, |EncodeAll([Tbs(c)] + c.after)|, n);
        var total := BigEndian(c.len[1..n - 1]);
        if total > 0 { StartsBeyond(buf, 1 + |c.len|, 1 + |c.len| + total); }
      }
    }
  }

  lemma KidsWellFormed(c: Cert)
    requires WellFormedCert(c)
    ensures AllWellFormed([Tbs(c)] + c.after)
  {
    var kids := [Tbs(c)] + c.after;
    forall i | 0 <= i < |kids| ensures WellFormed(kids[i]) { assert i > 0 ==> kids[i] == c.after[i - 1]; }
  }

  /** What a walk yields is what the children are. */
  lemma ChildrenFollow(buf: Bytes, p: nat, start: nat, len: nat, r: Py<seq<Child>>)
    requires p < |buf| && IsSequence(buf[p]) && Asn1Len(buf, p + 1) == Ret(Span(len, start))
    requires ChildrenFrom(buf, start, start + len) == r
    ensures Children(buf, p) == r
  {
  }

  /** A length of which enough is there reads as it should. */
  lemma LengthThere(e: Bytes, i: nat, b: Bytes, size: nat, n: nat)
    requires EncodesLen(b, size) && Has(e, i, b) && i < n <= |e| && (i + |b| <= n || size == 0)
    ensures Asn1Len(e[..n], i) == Ret(Span(size, i + |b|))
  {
    if i + |b| <= n {
      HasInPrefix(e, i, b, n);
      LenReadsBack(e[..n], i, b, size);
    } else {
      CutLength(e, i, b, size, n);
    }
  }

  lemma CutElement(e: Bytes, p: nat, len: Bytes, size: nat, at: nat, n: nat, r: Py<seq<Child>>)
    requires p + 2 <= n <= |e| && IsSequence(e[p]) && EncodesLen(len, size) && Has(e, p + 1, len)
    requires at == p + 1 + |len| && (at <= n || size == 0)
    requires ChildrenFrom(e[..n], at, at + size) == r
    ensures Children(e[..n], p) == r
  {
    LengthThere(e, p + 1, len, size, n);
    ChildrenFollow(e[..n], p, at, size, r);
  }

  /** The walk over the element at p with the elements ts in it. */
  lemma CutElementWalk(e: Bytes, p: nat, len: Bytes, ts: seq<Tlv>, at: nat, n: nat)
    requires p + 2 <= n <= |e| && IsSequence(e[p]) && EncodesLen(len, |EncodeAll(ts)|) && Has(e, p + 1, len)
    requires at == p + 1 + |len| && Has(e, at, EncodeAll(ts)) && AllWellFormed(ts)
    requires at <= n || ts == []
    ensures Children(e[..n], p) == CutSpans(ts, at, n)
  {
    var size := |EncodeAll(ts)|;
    CutWalk(e, at, ts, at + size, n);
    CutElement(e, p, len, size, at, n, CutSpans(ts, at, n));
  }

  /** With nothing in the TBSCertificate there are no fields. */
  lemma NoFields(ts: seq<Tlv>)
    ensures EncodeAll(ts) == [] <==> ts == []
  {
  }

  /**
   * Of any certificate, the first n bytes.  Within the outer length field the
   * outcome hangs on the digits read so far.  Behind it, the certificate is found
   * as if it were whole when the header of the last outer element and that of the
   * last field are there, and an IndexError is raised when not.
   */
  lemma CutCertificate(c: Cert, n: nat)
    requires WellFormedCert(c) && n <= |Encode(Outer(c))|
    ensures var e := Encode(Outer(c));
            FindSubjectDn(e[..n]) ==
            if n < 1 + |c.len| then (if 2 <= n && BigEndian(c.len[1..n - 1]) == 0 then ValueError else IndexError)
            else if LastThere([Tbs(c)] + c.after, 1 + |c.len|, n) && LastThere(c.fields, FieldsAt(c), n)
            then FindSubjectDn(e)
            else IndexError
  {
    var e := Encode(Outer(c));
    if n < 1 + |c.len| {
      CutInOuterLength(c, e, n);
    } else {
      assert e[0..|e|] == e;
      ChoiceOfCert(c, e);
      CertParts(c, e);
      CutBehindLength(c, e, n);
    }
  }

  lemma CutBehindLength(c: Cert, e: Bytes, n: nat)
    requires WellFormedCert(c) && 1 + |c.len| <= n <= |e|
    requires e[0] == c.tag && Has(e, 1, c.len) && Has(e, 1 + |c.len|, EncodeAll([Tbs(c)] + c.after))
    requires 1 + |c.len| < |e| && e[1 + |c.len|] == c.tbsTag && Has(e, 2 + |c.len|, c.tbsLen)
    requires Has(e, FieldsAt(c), EncodeAll(c.fields))
    ensures FindSubjectDn(e[..n]) ==
            if LastThere([Tbs(c)] + c.after, 1 + |c.len|, n) && LastThere(c.fields, FieldsAt(c), n)
            then Choose(Spans(c.fields, FieldsAt(c)))
            else IndexError
  {
    var kids, at := [Tbs(c)] + c.after, 1 + |c.len|;
    KidsWellFormed(c);
    CutElementWalk(e, 0, c.len, kids, at, n);
    if LastThere(kids, at, n) {
      FirstThere(kids, at, n);
      NoFields(c.fields);
      CutElementWalk(e, at, c.tbsLen, c.fields, FieldsAt(c), n);
      SpanAt(kids, at, 0);
      CutChoice(e[..n], Spans(kids, at), at);
    }
  }

  /** The choice, given both walks. */
  lemma CutChoice(buf: Bytes, kids: seq<Child>, p: nat)
    requires Children(buf, 0) == Ret(kids) && kids != [] && kids[0].hdr == p
    ensures FindSubjectDn(buf) == if Children(buf, p).Ret? then Choose(Children(buf, p).value) else IndexError
  {
  }

  /** When the last header is there the first is. */
  lemma FirstThere(ts: seq<Tlv>, at: nat, n: nat)
    requires ts != [] && LastThere(ts, at, n)
    ensures HeaderThere(ts[0], at, n)
  {
    if !HeaderThere(ts[0], at, n) { LastNotThere(ts, at, n); }
  }

  /** A certificate as it is issued: something with contents behind the
      TBSCertificate, and an outer length without leading zeros. */
  predicate Issued(c: Cert) {
    && WellFormedCert(c) && c.after != [] && c.after[|c.after| - 1].content != []
    && (|c.len| > 1 ==> c.len[1] != 0)
  }

  /** Where the contents of its last element, the signature, start. */
  function SignatureAt(c: Cert): nat
    requires c.after != []
  {
    var kids := [Tbs(c)] + c.after;
    LastAt(kids, 1 + |c.len|) + 1 + |kids[|kids| - 1].len|
  }

  /** The fields end before the last outer element starts. */
  lemma FieldsBeforeLast(c: Cert, n: nat)
    requires c.after != [] && LastThere([Tbs(c)] + c.after, 1 + |c.len|, n)
    ensures LastThere(c.fields, FieldsAt(c), n)
  {
    var kids := [Tbs(c)] + c.after;
    LastIsLater(kids, 1 + |c.len|, n);
    assert kids[1..] == c.after && kids[0] == Tbs(c);
    LastIsLater(c.after, 1 + |c.len| + |Encode(Tbs(c))|, n);
    if c.fields != [] { EndsInside(c.fields); }
  }

  lemma {:induction false} EndsInside(ts: seq<Tlv>)
    requires ts != []
    ensures OffsetOf(ts, |ts| - 1) + |Encode(ts[|ts| - 1])| == |EncodeAll(ts)|
    decreases ts
  {
    assert |EncodeAll(ts)| == |Encode(ts[0])| + |EncodeAll(ts[1..])|;
    if |ts| > 1 { EndsInside(ts[1..]); }
  }

  /**
   * A certificate as issued, cut short: the IndexError comes exactly from the cuts
   * before the signature's contents, except one right behind the first byte of a
   * long length, which is a ValueError.  From there on the stump is found as if it
   * were whole.
   */
  lemma CutIssued(c: Cert, n: nat)
    requires Issued(c) && n <= |Encode(Outer(c))|
    ensures var r := FindSubjectDn(Encode(Outer(c))[..n]);
            && (r == IndexError <==> n < SignatureAt(c) && !(n == 2 && |c.len| > 1))
            && (n >= SignatureAt(c) ==> r == FindSubjectDn(Encode(Outer(c))))
            && (n == 2 && |c.len| > 1 ==> r == ValueError)
  {
    var e := Encode(Outer(c));
    CutCertificate(c, n);
    var kids := [Tbs(c)] + c.after;
    assert kids[|kids| - 1] == c.after[|c.after| - 1];
    if n < 1 + |c.len| {
      if n > 2 { DigitsGrow(0, c.len[1..n - 1]); }
    } else if n < SignatureAt(c) {
      assert !LastThere(kids, 1 + |c.len|, n);
    } else {
      assert LastThere(kids, 1 + |c.len|, n);
      FieldsBeforeLast(c, n);
    }
    assert e[0..|e|] == e;
    ChoiceOfCert(c, e);
  }
}
