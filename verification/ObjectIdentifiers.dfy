/** What the object identifiers of the certificate checks denote: the content octets of
    section 8.19 of X.690, read as arcs. */
module ObjectIdentifiers {
  import opened Bytes
  import opened CertChain

  /** The subidentifiers, seven bits to an octet, the last octet of each below 0x80; `high`
      is what has been read of the first. */
  function Subidentifiers(s: bytes, high: nat): seq<nat> {
    if s == [] then []
    else if s[0] < 0x80 then [high * 128 + s[0]] + Subidentifiers(s[1..], 0)
    else Subidentifiers(s[1..], high * 128 + (s[0] - 0x80))
  }

  /** The first subidentifier holds two arcs. */
  function Arcs(s: bytes): seq<nat> {
    var ids := Subidentifiers(s, 0);
    if ids == [] then []
    else if ids[0] < 40 then [0, ids[0]] + ids[1..]
    else if ids[0] < 80 then [1, ids[0] - 40] + ids[1..]
    else [2, ids[0] - 80] + ids[1..]
  }

  /** Octets below 0x80 are subidentifiers of their own. */
  lemma {:induction false} SmallIds(s: bytes)
    requires forall i :: 0 <= i < |s| ==> s[i] < 0x80
    ensures Subidentifiers(s, 0) == s
  {
    if s != [] {
      SmallIds(s[1..]);
      assert s == [s[0]] + s[1..];
    }
  }

  lemma LongId(a: byte, b: byte, rest: bytes)
    requires a >= 0x80 > b
    ensures Subidentifiers([a, b] + rest, 0) == [(a - 0x80) * 128 + b] + Subidentifiers(rest, 0)
  {
    assert ([a, b] + rest)[1..] == [b] + rest && ([b] + rest)[1..] == rest;
  }

  lemma ShortId(a: byte, rest: bytes)
    requires a < 0x80
    ensures Subidentifiers([a] + rest, 0) == [a] + Subidentifiers(rest, 0)
  {
    assert ([a] + rest)[1..] == rest;
  }

  /** The certificate extensions of RFC 5280: 2.5.29.n. */
  lemma ExtensionArcs()
    ensures Arcs(OID_KEY_USAGE) == [2, 5, 29, 15]
    ensures Arcs(OID_SUBJECT_ALTERNATIVE_NAME) == [2, 5, 29, 17]
    ensures Arcs(OID_EXT_KEY_USAGE) == [2, 5, 29, 37]
  {
    SmallIds(OID_KEY_USAGE);
    SmallIds(OID_SUBJECT_ALTERNATIVE_NAME);
    SmallIds(OID_EXT_KEY_USAGE);
  }

  lemma DmtfTail(n: nat)
    requires n < 0x80
    ensures Subidentifiers([0x83, 0x1C] + ([0x82, 0x12] + [n]), 0) == [412] + ([274] + [n])
  {
    SmallIds([n]);
    hide Subidentifiers;
    LongId(0x82, 0x12, [n]);
    LongId(0x83, 0x1C, [0x82, 0x12] + [n]);
  }

  lemma DmtfIds(n: nat)
    requires n < 0x80
    ensures Subidentifiers([0x2B, 0x06, 0x01, 0x04, 0x01, 0x83, 0x1C, 0x82, 0x12, n], 0) == [43, 6, 1, 4, 1, 412, 274, n]
  {
    hide Subidentifiers;
    var tail: bytes := [0x83, 0x1C] + ([0x82, 0x12] + [n]);
    DmtfTail(n);
    ShortId(1, tail);
    ShortId(4, [1] + tail);
    ShortId(1, [4] + ([1] + tail));
    ShortId(6, [1] + ([4] + ([1] + tail)));
    ShortId(0x2B, [6] + ([1] + ([4] + ([1] + tail))));
    assert [0x2B, 0x06, 0x01, 0x04, 0x01, 0x83, 0x1C, 0x82, 0x12, n] == [0x2B] + ([6] + ([1] + ([4] + ([1] + tail))));
  }

  lemma DmtfArcs(n: nat)
    requires n < 0x80
    ensures Arcs([0x2B, 0x06, 0x01, 0x04, 0x01, 0x83, 0x1C, 0x82, 0x12, n]) == [1, 3, 6, 1, 4, 1, 412, 274, n]
  {
    hide Subidentifiers;
    DmtfIds(n);
  }

  /** The DMTF's for SPDM: 1.3.6.1.4.1.412.274.n. */
  lemma SpdmArcs()
    ensures Arcs(OID_DEVICE_INFO) == [1, 3, 6, 1, 4, 1, 412, 274, 1]
    ensures Arcs(OID_HARDWARE_IDENTITY) == [1, 3, 6, 1, 4, 1, 412, 274, 2]
    ensures Arcs(OID_RESPONDER_AUTH) == [1, 3, 6, 1, 4, 1, 412, 274, 3]
    ensures Arcs(OID_REQUESTER_AUTH) == [1, 3, 6, 1, 4, 1, 412, 274, 4]
    ensures Arcs(OID_MUTABLE_CERTIFICATE) == [1, 3, 6, 1, 4, 1, 412, 274, 5]
    ensures Arcs(OID_SPDM_EXTENSION) == [1, 3, 6, 1, 4, 1, 412, 274, 6]
  {
    hide Arcs;
    DmtfArcs(1);
    DmtfArcs(2);
    DmtfArcs(3);
    DmtfArcs(4);
    DmtfArcs(5);
    DmtfArcs(6);
  }
}
