/**
 * The trust store's tables and its packed file (parse_pem, pack, unpack and verify
 * in tools/gen_roots.py).
 */
module TrustStore {
  import opened Words
  import opened Der

  /** A root's descriptor: its certificate in the blob, and its subject there. */
  datatype Entry = Entry(certOff: nat, certLen: nat, subjOff: nat, subjLen: nat)

  datatype Store = Store(der: Bytes, entries: seq<Entry>)

  // ---------------------------------------------------------------------------
  // Building the table
  // ---------------------------------------------------------------------------

  function Filter<T>(ps: seq<T>, keep: T -> bool): seq<T> {
    if ps == [] then [] else (if keep(ps[0]) then [ps[0]] else []) + Filter(ps[1..], keep)
  }

  lemma {:induction false} FilterAppend<T>(ps: seq<T>, p: T, keep: T -> bool)
    ensures Filter(ps + [p], keep) == Filter(ps, keep) + (if keep(p) then [p] else [])
  {
    if ps == [] {
      assert ps + [p] == [p];
    } else {
      var first := if keep(ps[0]) then [ps[0]] else [];
      var last := if keep(p) then [p] else [];
      assert (ps + [p])[0] == ps[0] && (ps + [p])[1..] == ps[1..] + [p];
      FilterAppend(ps[1..], p, keep);
      assert first + (Filter(ps[1..], keep) + last) == (first + Filter(ps[1..], keep)) + last;
    }
  }

  // The object identifiers key_supported looks for.
  const RSA_PK: Bytes := [0x2A, 0x86, 0x48, 0x86, 0xF7, 0x0D, 0x01, 0x01, 0x01]
  const EC_PK: Bytes := [0x2A, 0x86, 0x48, 0xCE, 0x3D, 0x02, 0x01]
  const P256: Bytes := [0x2A, 0x86, 0x48, 0xCE, 0x3D, 0x03, 0x01, 0x07]
  const P384: Bytes := [0x2B, 0x81, 0x04, 0x00, 0x22]

  /** `part in der`. */
  predicate Contains(der: Bytes, part: Bytes) {
    exists i :: 0 <= i <= |der| && Has(der, i, part)
  }

  /** key_supported. */
  predicate KeySupported(der: Bytes) {
    Contains(der, RSA_PK) || (Contains(der, EC_PK) && (Contains(der, P256) || Contains(der, P384)))
  }

  /** A certificate is packed if its key is supported and its subject is found. */
  predicate Keeps(der: Bytes) { KeySupported(der) && FindSubjectDn(der).Ret? }

  function Packed(ders: seq<Bytes>): seq<Bytes> { Filter(ders, Keeps) }

  /** Do the bytes of some certificate with a supported key run out under
      find_subject_dn? */
  ghost predicate SomeStarved(ders: seq<Bytes>) {
    exists d <- ders :: KeySupported(d) && Starved(d)
  }

  /** Entry i describes certificate i: it lies behind the others, and its subject
      is where find_subject_dn puts it. */
  predicate Describes(s: Store, packed: seq<Bytes>) {
    && |s.entries| == |packed| && s.der == Concat(packed)
    && forall i :: 0 <= i < |packed| ==> DescribesOne(s.entries[i], |Concat(packed[..i])|, packed[i])
  }

  predicate DescribesOne(e: Entry, off: nat, cert: Bytes) {
    var d := FindSubjectDn(cert);
    d.Ret? && e.certOff == off && e.certLen == |cert| && e.subjOff == off + d.value.off && e.subjLen == d.value.len
  }

  lemma DescribesMore(s: Store, packed: seq<Bytes>, cert: Bytes, e: Entry)
    requires Describes(s, packed) && DescribesOne(e, |s.der|, cert)
    ensures Describes(Store(s.der + cert, s.entries + [e]), packed + [cert])
  {
    ConcatOne(packed, cert);
    var more := packed + [cert];
    forall i | 0 <= i < |more| ensures DescribesOne((s.entries + [e])[i], |Concat(more[..i])|, more[i]) {
      if i < |packed| { assert more[..i] == packed[..i]; } else { assert more[..i] == packed; }
    }
  }

  /** One certificate: packed, or dropped when its subject is not found. */
  method PackOne(der: Bytes, s: Store, ghost packed: seq<Bytes>) returns (r: Option<Store>)
    requires Describes(s, packed)
    ensures r.None? <==> Starved(der)
    ensures r.Some? ==> Describes(r.value, packed + (if FindSubjectDn(der).Ret? then [der] else []))
  {
    IndexErrorIff(der);
    var d := FindSubjectDn(der);
    if d == IndexError { return None; }
    if !d.Ret? {
      assert packed + [] == packed;
      return Some(s);
    }
    FoundIsInside(der);
    var off := |s.der|;
    var e := Entry(off, |der|, off + d.value.off, d.value.len);
    DescribesMore(s, packed, der, e);
    r := Some(Store(s.der + der, s.entries + [e]));
  }

  /**
   * The loop of parse_pem over the decoded certificates: the store, or None when
   * the IndexError it does not catch ends the run, which is when a certificate with
   * a supported key is cut so that its bytes run out.
   */
  method ParsePem(ders: seq<Bytes>) returns (r: Option<Store>)
    ensures r.None? <==> SomeStarved(ders)
    ensures r.Some? ==> Describes(r.value, Packed(ders))
  {
    var s := Store([], []);
    var i := 0;
    while i < |ders|
      invariant i <= |ders| && Describes(s, Packed(ders[..i]))
      invariant !SomeStarved(ders[..i])
    {
      ghost var packed := Packed(ders[..i]);
      assert ders[..i + 1] == ders[..i] + [ders[i]];
      FilterAppend(ders[..i], ders[i], Keeps);
      assert packed + [] == packed;
      if KeySupported(ders[i]) {
        var t := PackOne(ders[i], s, packed);
        if t == None { return None; }
        s := t.value;
      }
      i := i + 1;
    }
    assert ders[..i] == ders;
    r := Some(s);
  }

  /**
   * A certificate as issued that was cut short, yet still carries a supported key,
   * ends the run exactly when it was cut before its signature's contents; cut later
   * it is packed like a whole one.
   */
  lemma CutRootEndsRun(c: Cert, n: nat)
    requires Issued(c) && n <= |Encode(Outer(c))| && KeySupported(Encode(Outer(c))[..n])
    ensures var stump := Encode(Outer(c))[..n];
            && (SomeStarved([stump]) <==> n < SignatureAt(c))
            && (n >= SignatureAt(c) ==> Packed([stump]) == if FindSubjectDn(Encode(Outer(c))).Ret? then [stump] else [])
  {
    var stump := Encode(Outer(c))[..n];
    CutIssued(c, n);
    IndexErrorIff(stump);
    assert stump in [stump];
    assert Filter([stump][1..], Keeps) == [];
  }

  /** For instance: a SEQUENCE that promises one byte more than the RSA key's
      identifier in it. */
  lemma RsaStumpIsStarved() returns (der: Bytes)
    ensures der == [0x30, 0x0C, 0x06, 0x09] + RSA_PK && KeySupported(der) && SomeStarved([der])
  {
    der := [0x30, 0x0C, 0x06, 0x09] + RSA_PK;
    assert der[4..13] == RSA_PK && Has(der, 4, RSA_PK);
    assert |der| == 13 && Behind(der, 2) == 13 && Inside(der, 0) == 2 && Behind(der, 0) == 14;
    assert Lacks(der, 2, 14, [2, 13]);
    assert der in [der];
  }

  // ---------------------------------------------------------------------------
  // verify
  // ---------------------------------------------------------------------------

  predicate InBlob(s: Store, e: Entry) { e.certOff + e.certLen <= |s.der| }

  predicate SubjectInside(e: Entry) {
    e.certOff <= e.subjOff && e.subjOff + e.subjLen <= e.certOff + e.certLen
  }

  predicate NonEmpty(e: Entry) { e.certLen != 0 && e.subjLen != 0 }

  predicate StartsSequence(s: Store, e: Entry) { e.certOff < |s.der| ==> s.der[e.certOff] == 0x30 }

  function Covered(es: seq<Entry>): nat {
    if es == [] then 0 else es[0].certLen + Covered(es[1..])
  }

  /** verify finds no problem. */
  predicate Clean(s: Store) {
    && (forall i :: 0 <= i < |s.entries| ==>
          var e := s.entries[i]; InBlob(s, e) && SubjectInside(e) && NonEmpty(e) && StartsSequence(s, e))
    && Covered(s.entries) == |s.der|
  }

  /** verify, counting the problems it would list. */
  method Verify(s: Store) returns (problems: nat)
    ensures problems == 0 <==> Clean(s)
  {
    problems := 0;
    var covered: nat := 0;
    var i := 0;
    while i < |s.entries|
      invariant i <= |s.entries| && covered + Covered(s.entries[i..]) == Covered(s.entries)
      invariant problems == 0 <==>
                forall j :: 0 <= j < i ==>
                  var e := s.entries[j]; InBlob(s, e) && SubjectInside(e) && NonEmpty(e) && StartsSequence(s, e)
    {
      var e := s.entries[i];
      if !InBlob(s, e) { problems := problems + 1; }
      if !SubjectInside(e) { problems := problems + 1; }
      if !NonEmpty(e) { problems := problems + 1; }
      if !StartsSequence(s, e) { problems := problems + 1; }
      covered := covered + e.certLen;
      i := i + 1;
    }
    if covered != |s.der| { problems := problems + 1; }
  }

  lemma OneIsInside(e: Entry, off: nat, cert: Bytes)
    requires DescribesOne(e, off, cert)
    ensures e.certOff == off && e.certLen == |cert| > 0 && SubjectInside(e) && 2 <= e.subjLen
  {
    FoundIsInside(cert);
  }

  /** The entry cuts the certificate out of the blob, and its subject lies in it. */
  predicate CutsOut(s: Store, e: Entry, cert: Bytes) {
    && InBlob(s, e) && SubjectInside(e) && NonEmpty(e) && e.certLen == |cert|
    && s.der[e.certOff..e.certOff + e.certLen] == cert
    && cert != [] && (StartsSequence(s, e) <==> cert[0] == 0x30)
  }

  /** What is known of an entry that describes a certificate of the store. */
  lemma DescribedIsInside(s: Store, packed: seq<Bytes>, i: nat)
    requires Describes(s, packed) && i < |packed|
    ensures CutsOut(s, s.entries[i], packed[i])
  {
    PieceCutsOut(s, s.entries[i], packed, i);
  }

  lemma PieceCutsOut(s: Store, e: Entry, ps: seq<Bytes>, i: nat)
    requires i < |ps| && s.der == Concat(ps) && DescribesOne(e, |Concat(ps[..i])|, ps[i])
    ensures CutsOut(s, e, ps[i])
  {
    PieceAt(ps, i);
    OneCutsOut(s, e, |Concat(ps[..i])|, ps[i]);
  }

  lemma OneCutsOut(s: Store, e: Entry, off: nat, cert: Bytes)
    requires DescribesOne(e, off, cert)
    requires off + |cert| <= |s.der| && s.der[off..off + |cert|] == cert
    ensures CutsOut(s, e, cert)
  {
    OneIsInside(e, off, cert);
    assert s.der[off..off + |cert|][0] == s.der[off];
  }

  lemma {:induction false} PieceAt(ps: seq<Bytes>, i: nat)
    requires i < |ps|
    ensures var off := |Concat(ps[..i])|;
            off + |ps[i]| <= |Concat(ps)| && Concat(ps)[off..off + |ps[i]|] == ps[i]
  {
    if i == 0 {
      assert ps[..0] == [] && (ps[0] + Concat(ps[1..]))[0..|ps[0]|] == ps[0];
    } else {
      PieceAt(ps[1..], i - 1);
      assert ps[..i][0] == ps[0] && ps[..i][1..] == ps[1..][..i - 1];
      var off, p, rest := |Concat(ps[1..][..i - 1])|, ps[0], Concat(ps[1..]);
      assert (p + rest)[|p| + off..|p| + off + |ps[i]|] == rest[off..off + |ps[i]|];
    }
  }

  lemma AllCutOut(s: Store, packed: seq<Bytes>)
    requires Describes(s, packed)
    ensures |s.entries| == |packed| && s.der == Concat(packed)
    ensures forall i :: 0 <= i < |packed| ==> CutsOut(s, s.entries[i], packed[i])
  {
    forall i | 0 <= i < |packed| ensures CutsOut(s, s.entries[i], packed[i]) {
      DescribedIsInside(s, packed, i);
    }
  }

  lemma {:induction false} CoversAll(es: seq<Entry>, packed: seq<Bytes>)
    requires |es| == |packed| && forall i :: 0 <= i < |es| ==> es[i].certLen == |packed[i]|
    ensures Covered(es) == |Concat(packed)|
  {
    if es != [] { CoversAll(es[1..], packed[1..]); }
  }

  lemma CutOutIsCleanIff(s: Store, packed: seq<Bytes>)
    requires |s.entries| == |packed| && s.der == Concat(packed)
    requires forall i :: 0 <= i < |packed| ==> CutsOut(s, s.entries[i], packed[i])
    ensures Covered(s.entries) == |s.der|
    ensures forall i :: 0 <= i < |s.entries| ==>
              var e := s.entries[i]; InBlob(s, e) && SubjectInside(e) && NonEmpty(e)
    ensures Clean(s) <==> forall i :: 0 <= i < |packed| ==> packed[i] != [] && packed[i][0] == 0x30
  {
    CoversAll(s.entries, packed);
  }

  /**
   * Every table parse_pem builds covers the blob exactly, each certificate lies in
   * it whole, and each subject, at least a tag and a length, inside its own
   * certificate.  All verify asks for beyond that is the SEQUENCE tag in front,
   * which find_subject_dn does not insist on: it walks a SET as well.
   */
  lemma BuiltIsCleanIff(s: Store, packed: seq<Bytes>)
    requires Describes(s, packed)
    ensures Covered(s.entries) == |s.der|
    ensures forall i :: 0 <= i < |s.entries| ==>
              var e := s.entries[i]; InBlob(s, e) && SubjectInside(e) && NonEmpty(e)
    ensures Clean(s) <==> forall i :: 0 <= i < |packed| ==> packed[i] != [] && packed[i][0] == 0x30
  {
    AllCutOut(s, packed);
    CutOutIsCleanIff(s, packed);
  }

  // ---------------------------------------------------------------------------
  // A root that is packed and not clean
  // ---------------------------------------------------------------------------

  /** A certificate whose outer element is a SET, with a subject and a supported key. */
  predicate SetRoot(c: Cert) {
    WellFormedCert(c) && c.tag == 0x31 && HasSubject(c) && KeySupported(Encode(Outer(c)))
  }

  /** parse_pem packs it, and verify then finds a problem. */
  lemma SetRootIsPackedUnclean(c: Cert, s: Store)
    requires SetRoot(c) && Describes(s, Packed([Encode(Outer(c))]))
    ensures Packed([Encode(Outer(c))]) == [Encode(Outer(c))] && !Clean(s)
  {
    var e := Encode(Outer(c));
    assert e[0..|e|] == e;
    SubjectFoundIff(c, e);
    assert Filter([e][1..], Keeps) == [];
    BuiltIsCleanIff(s, [e]);
    HasTlv(e, 0, Outer(c));
  }

  /** A TLV of fewer than 128 bytes of contents. */
  function Small(tag: u8, content: Bytes): Tlv
    requires |content| < 0x80
  {
    Tlv(tag, [|content|], content)
  }

  lemma SmallIsWellFormed(tag: u8, content: Bytes)
    requires |content| < 0x80
    ensures WellFormed(Small(tag, content)) && |Encode(Small(tag, content))| == 2 + |content|
  {
  }

  lemma SizeOfAll(ts: seq<Tlv>)
    requires ts != []
    ensures |EncodeAll(ts)| == |Encode(ts[0])| + |EncodeAll(ts[1..])|
  {
  }

  /** Five fields of two bytes each, then the key. */
  lemma SixFields(e: Tlv, key: Tlv) returns (fields: seq<Tlv>)
    requires e == Small(0x30, []) && key == Small(0x30, RSA_PK)
    ensures fields == [e, e, e, e, e, key] && AllWellFormed(fields) && |EncodeAll(fields)| == 21
  {
    SmallIsWellFormed(0x30, []);
    SmallIsWellFormed(0x30, RSA_PK);
    fields := [e, e, e, e, e, key];
    var f1, f2, f3, f4, f5 := [e, e, e, e, key], [e, e, e, key], [e, e, key], [e, key], [key];
    assert fields[1..] == f1 && f1[1..] == f2 && f2[1..] == f3 && f3[1..] == f4 && f4[1..] == f5 && f5[1..] == [];
    SizeOfAll(fields);
    SizeOfAll(f1);
    SizeOfAll(f2);
    SizeOfAll(f3);
    SizeOfAll(f4);
    SizeOfAll(f5);
  }

  /** A key's identifier as the contents of some field makes the key supported. */
  lemma KeyInField(c: Cert, k: nat)
    requires k < |c.fields| && c.fields[k].content == RSA_PK
    ensures KeySupported(Encode(Outer(c)))
  {
    var buf := Encode(Outer(c));
    assert buf[0..|buf|] == buf;
    CertParts(c, buf);
    EncodingAt(buf, FieldsAt(c), c.fields, k);
    HasTlv(buf, FieldsAt(c) + OffsetOf(c.fields, k), c.fields[k]);
  }

  /** There is one. */
  lemma SetRootExists() returns (c: Cert)
    ensures SetRoot(c)
  {
    var fields := SixFields(Small(0x30, []), Small(0x30, RSA_PK));
    c := Cert(0x31, [23], 0x30, [21], fields, []);
    assert Tbs(c) == Small(0x30, EncodeAll(fields));
    SmallIsWellFormed(0x30, EncodeAll(fields));
    SizeOfAll([Tbs(c)] + c.after);
    assert ([Tbs(c)] + c.after)[1..] == [];
    assert Outer(c) == Small(0x31, EncodeAll([Tbs(c)] + c.after));
    SmallIsWellFormed(0x31, EncodeAll([Tbs(c)] + c.after));
    KeyInField(c, 5);
  }
}
