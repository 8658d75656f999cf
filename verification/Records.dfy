/**
 Resource records, messages and the status values shared by the validator.

 What the validator obtains from foreign code is gathered in `Oracle`: key tags, DS digest
 matching, cryptographic signature checking, and NSEC3 hash matching and covering.
 */
module Records {
  import opened Collections
  import opened Names

  type TypeCode = x: int | 0 <= x < 0x1_0000
  type Seconds = x: int | 0 <= x < 0x1_0000_0000

  const TYPE_A: TypeCode := 1
  const TYPE_NS: TypeCode := 2
  const TYPE_CNAME: TypeCode := 5
  const TYPE_SOA: TypeCode := 6
  const TYPE_AAAA: TypeCode := 28
  const TYPE_DNAME: TypeCode := 39
  const TYPE_DS: TypeCode := 43
  const TYPE_RRSIG: TypeCode := 46
  const TYPE_NSEC: TypeCode := 47
  const TYPE_DNSKEY: TypeCode := 48
  const TYPE_NSEC3: TypeCode := 50

  const HASH_SHA1 := 1

  /** Record contents, one constructor for each record type the validator takes apart. */
  datatype RData =
    | DSData(dsKeyTag: nat, dsAlgorithm: nat, digestType: nat, digest: seq<Octet>)
    | KeyData(keyAlgorithm: nat, publicKey: seq<Octet>)
    | SigData(typeCovered: TypeCode, algorithm: nat, labels: nat, origTtl: Seconds,
              expiration: Seconds, inception: Seconds, keyTag: nat, signer: Name, signature: seq<Octet>)
    | NsecData(nextDomain: Name, nsecTypes: seq<TypeCode>)
    | Nsec3Data(hashAlgorithm: nat, flags: nat, ownerHash: nat, nextHash: nat, nsec3Types: seq<TypeCode>)
    | NsData(host: Name)
    | CnameData(target: Name)
    | OtherData(code: TypeCode, content: seq<Octet>)

  datatype RR = RR(owner: Name, ttl: Seconds, data: RData) {
    function Rrtype(): TypeCode {
      match data
      case DSData(_, _, _, _) => TYPE_DS
      case KeyData(_, _) => TYPE_DNSKEY
      case SigData(_, _, _, _, _, _, _, _, _) => TYPE_RRSIG
      case NsecData(_, _) => TYPE_NSEC
      case Nsec3Data(_, _, _, _, _) => TYPE_NSEC3
      case NsData(_) => TYPE_NS
      case CnameData(_) => TYPE_CNAME
      case OtherData(code, _) => code
    }
  }

  datatype Question = Question(name: Name, qtype: TypeCode)

  datatype Msg = Msg(question: Question, answer: seq<RR>, ns: seq<RR>)

  datatype KeyFetch = Keys(records: seq<RR>) | KeysUnavailable

  /** A zone as the validator sees it: its apex, and what asking it for DNSKEY records yields. */
  datatype Zone = Zone(name: Name, dnskeys: KeyFetch)

  datatype AuthResult = Unknown | Insecure | Secure | Bogus

  datatype Doe =
    | NotFound
    | NsecMissingDS | NsecNoData | NsecNxDomain | NsecWildcard
    | Nsec3MissingDS | Nsec3NoData | Nsec3NxDomain | Nsec3OptOut | Nsec3Wildcard

  datatype Error =
    | ErrNotSubdomain | ErrSameName | ErrMissingDS(missing: Name) | ErrUnknown | ErrNoResults
    | ErrDuplicateInputForZone | ErrKeysUnavailable | ErrKeysNotFound
    | ErrAuthSignerNameMismatch | ErrInvalidLabelCount | ErrInvalidTime | ErrInvalidSignature
    | ErrNoKeyFoundForSignature | ErrUnexpectedSignatureCount
    | ErrSignatureSetEmpty | ErrVerifyFailed | ErrBogusResultFound
    | ErrNSRecordsHaveMismatchingOwners | ErrBogusDoeRecordsNotFound
    | ErrMultipleWildcardSignatures | ErrBogusWildcardDoeNotFound | ErrFailsafeResponse
    | ErrPanic

  /** Foreign computations, as total functions of their arguments. */
  datatype Oracle = Oracle(
    tagOf: RR -> nat,
    dsMatches: (RR, RR) -> bool,
    verifies: (RR, RR, seq<RR>) -> bool,
    nsec3Match: (RR, Name) -> bool,
    nsec3Cover: (RR, Name) -> bool)

  /**
   What is relied on about signature checking: the library refuses an empty RRset, and RRSIG
   records are never themselves signed (section 2.2 of RFC 4035).
   */
  ghost predicate GoodOracle(o: Oracle) {
    forall sig: RR, key: RR, rrset: seq<RR> ::
      o.verifies(sig, key, rrset) ==>
        rrset != [] && (sig.data.SigData? ==> sig.data.typeCovered != TYPE_RRSIG)
  }

  function Min(a: Seconds, b: Seconds): Seconds {
    if b < a then b else a
  }

  /** The lowest TTL of an RRset, and `start`. */
  function MinTtl(start: Seconds, rrset: seq<RR>): (m: Seconds)
    ensures m <= start
    ensures forall x :: x in rrset ==> m <= x.ttl
    ensures m == start || exists x :: x in rrset && m == x.ttl
  {
    if rrset == [] then start
    else
      var rest := MinTtl(start, rrset[..|rrset| - 1]);
      assert rrset == rrset[..|rrset| - 1] + [rrset[|rrset| - 1]];
      Min(rest, rrset[|rrset| - 1].ttl)
  }

  method LowestTtl(start: Seconds, rrset: seq<RR>) returns (ttl: Seconds)
    ensures ttl == MinTtl(start, rrset)
  {
    ttl := start;
    for i := 0 to |rrset|
      invariant ttl == MinTtl(start, rrset[..i])
    {
      assert rrset[..i + 1][..i] == rrset[..i];
      ttl := Min(ttl, rrset[i].ttl);
    }
    assert rrset[..|rrset|] == rrset;
  }

  /** All records of exactly this owner text and type, in order. */
  function OfNameAndType(rrs: seq<RR>, name: Name, t: TypeCode): seq<RR> {
    Filter(rrs, (x: RR) => x.Rrtype() == t && x.owner == name)
  }

  function OfType(rrs: seq<RR>, t: TypeCode): seq<RR> {
    Filter(rrs, (x: RR) => x.Rrtype() == t)
  }

  predicate TypeExists(rrs: seq<RR>, t: TypeCode) {
    exists i :: 0 <= i < |rrs| && rrs[i].Rrtype() == t
  }

  function RrsigsOf(rrs: seq<RR>): seq<RR> {
    Filter(rrs, (x: RR) => x.data.SigData?)
  }

  function DnskeysOf(rrs: seq<RR>): seq<RR> {
    Filter(rrs, (x: RR) => x.data.KeyData?)
  }

  function DsOf(rrs: seq<RR>): seq<RR> {
    Filter(rrs, (x: RR) => x.data.DSData?)
  }

  function NsecsOf(rrs: seq<RR>): seq<RR> {
    Filter(rrs, (x: RR) => x.data.NsecData?)
  }

  function Nsec3sOf(rrs: seq<RR>): seq<RR> {
    Filter(rrs, (x: RR) => x.data.Nsec3Data?)
  }
}
