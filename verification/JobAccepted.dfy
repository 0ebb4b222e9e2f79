/**
  What `is_job_invalid` lets through: the requests of one table of requirements per mode and per
  algorithm, which of the pointers that the engines read are there then, and tags of the length of
  the digest.
*/
module JobAccepted {
  import opened Wrappers
  import opened ImbJob
  import opened JobCheck
  import ShaDriver

  // ------------------------------------------------------------------ the table

  /** The lengths `least`, `least + step`, ... up to `most`, if there is a greatest one. */
  datatype Lengths = Lengths(least: nat, step: nat, most: Option<nat>)
  {
    predicate Has(n: nat) {
      && n >= least && (most.Some? ==> n <= most.value)
      && (step > 0 ==> (n - least) % step == 0)
    }
  }

  function Exactly(n: nat): Lengths {
    Lengths(n, 1, Some(n))
  }

  function FromTo(least: nat, most: nat): Lengths {
    Lengths(least, 1, Some(most))
  }

  function Multiples(block: nat): Lengths {
    Lengths(block, block, None)
  }

  function AtLeast(n: nat): Lengths {
    Lengths(n, 1, None)
  }

  /** When something is required: always, for a message that is not empty, or never. */
  datatype When = Always | IfMessage | Never
  {
    predicate For(length: nat) {
      Always? || (IfMessage? && length != 0)
    }
  }

  /** enc_keys; the key of the direction; both for decryption; or the array of schedules of 3DES. */
  datatype KeyRule = NoKey | EncKey | DirectionKey | EncAndDirectionKey | Schedules

  /** What a cipher mode requires: the buffers, the IV pointer, the key pointers, and lengths of key,
      IV and message; `idle` if an empty message needs neither key nor IV. */
  datatype CipherRule = CipherRule(buffers: When, iv: bool, key: KeyRule, keyLens: Lengths,
                                   ivLens: Lengths, message: Lengths, idle: bool)

  function AesLens(): Lengths {
    Lengths(16, 8, Some(32))
  }

  function CipherRuleOf(mode: CipherMode): Option<CipherRule> {
    match mode
    case Cbc => Some(CipherRule(Always, true, DirectionKey, AesLens(), Exactly(16), Multiples(16), false))
    case Ecb => Some(CipherRule(Always, false, EncKey, AesLens(), Exactly(0), Multiples(16), false))
    case Cntr =>
      Some(CipherRule(Always, true, EncKey, AesLens(), Lengths(12, 4, Some(16)), AtLeast(1), false))
    case CntrBitlen =>
      Some(CipherRule(Always, true, EncKey, AesLens(), Lengths(12, 4, Some(16)), AtLeast(1), false))
    case DocsisSecBpi =>
      Some(CipherRule(Always, true, EncAndDirectionKey, Lengths(16, 16, Some(32)), Exactly(16), AtLeast(0),
                      false))
    case Gcm =>
      Some(CipherRule(IfMessage, true, DirectionKey, AesLens(), AtLeast(1), AtLeast(0), false))
    case Des =>
      Some(CipherRule(Always, true, DirectionKey, Exactly(8), Exactly(8), Multiples(8), false))
    case DocsisDes =>
      Some(CipherRule(Always, true, DirectionKey, Exactly(8), Exactly(8), AtLeast(1), false))
    case Des3 =>
      Some(CipherRule(Always, true, Schedules, Exactly(24), Exactly(8), Multiples(8), false))
    case Ccm =>
      Some(CipherRule(IfMessage, true, EncKey, Exactly(16), FromTo(7, 13), AtLeast(0), false))
    case PonAesCntr =>
      Some(CipherRule(Always, false, NoKey, Exactly(16), Exactly(16), Lengths(0, 4, Some(16384)), true))
    case ZucEea3 =>
      Some(CipherRule(Always, true, EncKey, Exactly(16), Exactly(16), FromTo(1, 8188), false))
    case Snow3gUea2Bitlen =>
      Some(CipherRule(Always, true, EncKey, Exactly(16), Exactly(16), FromTo(1, 4294967295), false))
    case KasumiUea1Bitlen =>
      Some(CipherRule(Always, true, EncKey, Exactly(16), Exactly(8), FromTo(1, 20000), false))
    case NullCipher => Some(CipherRule(Never, false, NoKey, AtLeast(0), AtLeast(0), AtLeast(0), false))
    case CustomCipher => Some(CipherRule(Never, false, NoKey, AtLeast(0), AtLeast(0), AtLeast(0), false))
    case OtherCipher(_) => None
  }

  predicate KeysThere(r: Request, key: KeyRule) {
    match key
    case NoKey => true
    case EncKey => r.encKeys > 0
    case DirectionKey =>
      (r.direction == Encrypt ==> r.encKeys > 0) && (r.direction == Decrypt ==> r.decKeys > 0)
    case EncAndDirectionKey => r.encKeys > 0 && (r.direction == Decrypt ==> r.decKeys > 0)
    case Schedules =>
      var (keys, ks) :=
        if r.direction == Encrypt then (r.encKeys, r.encSchedules) else (r.decKeys, r.decSchedules);
      keys > 0 && ks.0 > 0 && ks.1 > 0 && ks.2 > 0
  }

  predicate CipherFits(r: Request, c: CipherRule) {
    && (c.buffers.For(r.cipherLen) ==> r.src > 0 && r.dst > 0)
    && (c.iv ==> r.iv > 0)
    && KeysThere(r, c.key)
    && c.message.Has(r.cipherLen)
    && ((c.idle && r.cipherLen == 0) || (c.keyLens.Has(r.keyLen) && c.ivLens.Has(r.ivLen)))
  }

  /** What a hash algorithm requires: the source, the tag pointer, and lengths of tag and message. */
  datatype HashRule = HashRule(source: When, tag: bool, tagLens: Lengths, message: Lengths)

  /** The whole tag or one other length. */
  function Either(short: nat, whole: nat): Lengths
    requires short <= whole
  {
    Lengths(short, whole - short, Some(whole))
  }

  function HashRuleOf(alg: HashAlg): Option<HashRule> {
    match alg
    case HmacSha1 => Some(HashRule(Always, true, Either(12, 20), AtLeast(1)))
    case HmacSha224 => Some(HashRule(Always, true, Either(14, 28), AtLeast(1)))
    case HmacSha256 => Some(HashRule(Always, true, Either(16, 32), AtLeast(1)))
    case HmacSha384 => Some(HashRule(Always, true, Either(24, 48), AtLeast(1)))
    case HmacSha512 => Some(HashRule(Always, true, Either(32, 64), AtLeast(1)))
    case AesXcbc => Some(HashRule(Always, true, Exactly(12), AtLeast(1)))
    case Md5 => Some(HashRule(Always, true, Either(12, 16), AtLeast(1)))
    case Sha1 => Some(HashRule(Always, true, Exactly(20), AtLeast(0)))
    case Sha224 => Some(HashRule(Always, true, Exactly(28), AtLeast(0)))
    case Sha256 => Some(HashRule(Always, true, Exactly(32), AtLeast(0)))
    case Sha384 => Some(HashRule(Always, true, Exactly(48), AtLeast(0)))
    case Sha512 => Some(HashRule(Always, true, Exactly(64), AtLeast(0)))
    case AesGmac => Some(HashRule(Never, true, FromTo(1, 16), AtLeast(0)))
    case AesCcm => Some(HashRule(IfMessage, false, Lengths(4, 2, Some(16)), AtLeast(0)))
    case AesCmac => Some(HashRule(Always, true, FromTo(4, 16), AtLeast(0)))
    case AesCmacBitlen => Some(HashRule(Always, true, FromTo(4, 16), AtLeast(0)))
    case PonCrcBip => Some(HashRule(Never, true, Exactly(8), Lengths(8, 4, Some(16392))))
    case ZucEia3Bitlen => Some(HashRule(Always, false, Exactly(4), FromTo(1, 65504)))
    case DocsisCrc32 => Some(HashRule(Never, true, Exactly(4), AtLeast(0)))
    case Snow3gUia2Bitlen => Some(HashRule(Always, false, Exactly(4), FromTo(1, 4294967295)))
    case KasumiUia1 => Some(HashRule(Always, false, Exactly(4), FromTo(9, 2500)))
    case NullHash => None
    case CustomHash => None
    case OtherHash(_) => None
  }

  predicate HashFits(r: Request, h: HashRule) {
    && (h.source.For(r.hashLen) ==> r.src > 0)
    && (h.tag ==> r.tag > 0)
    && h.tagLens.Has(r.tagLen)
    && h.message.Has(r.hashLen)
  }

  /** The modes that do cipher and tag in one pass, or nearly so, and their algorithms. */
  predicate Paired(mode: CipherMode, alg: HashAlg) {
    && (mode == Gcm <==> alg == AesGmac)
    && (mode == Ccm <==> alg == AesCcm)
    && (mode == PonAesCntr <==> alg == PonCrcBip)
    && (alg == DocsisCrc32 ==> mode == DocsisSecBpi)
  }

  /** The frame of DOCSIS with a CRC: the ciphered part starts behind the two addresses and ends at most
      where the CRC does, and the CRC is computed over the plain text. */
  predicate DocsisFrame(r: Request) {
    && (r.cipherLen > 0 && r.hashLen > 0 ==>
          r.cipherLen + 8 <= r.hashLen && r.hashStart + 12 <= r.cipherStart)
    && (r.direction == Encrypt ==> r.chainOrder == HashCipher)
    && (r.direction == Decrypt ==> r.chainOrder == CipherHash)
  }

  /** What is particular to an algorithm: its keys and its additional data. */
  predicate Particulars(r: Request) {
    match r.hashAlg
    case CustomHash => r.hashFunc > 0
    case AesGmac => r.u1 > 0 ==> r.u0 > 0
    case AesCcm =>
      && (r.u1 > 0 ==> r.u0 > 0) && r.u1 <= 46
      && r.cipherLen == r.hashLen && r.cipherStart == r.hashStart
    case AesCmac => r.u0 > 0 && r.u1 > 0 && r.u2 > 0
    case AesCmacBitlen => r.u0 > 0 && r.u1 > 0 && r.u2 > 0
    case ZucEia3Bitlen => r.u0 > 0 && r.u1 > 0
    case Snow3gUia2Bitlen => r.u0 > 0 && r.u1 > 0
    case KasumiUia1 => r.u0 > 0
    case DocsisCrc32 => DocsisFrame(r)
    case OtherHash(_) => false
    case _ => true
  }

  predicate CipherTable(r: Request) {
    && CipherRuleOf(r.cipherMode).Some? && CipherFits(r, CipherRuleOf(r.cipherMode).value)
    && (r.cipherMode == CustomCipher ==> r.cipherFunc > 0)
    && (r.cipherMode == PonAesCntr ==> r.src != r.dst && r.hashAlg == PonCrcBip)
    && (r.cipherMode == Gcm ==> r.hashAlg == AesGmac)
    && (r.cipherMode == Ccm ==> r.hashAlg == AesCcm)
  }

  lemma AesVerdict(r: Request)
    requires r.cipherMode in {Cbc, Ecb}
    ensures !CipherInvalid(r) <==> CipherTable(r)
  {
  }

  lemma DesVerdict(r: Request)
    requires r.cipherMode in {Des, Des3, DocsisDes}
    ensures !CipherInvalid(r) <==> CipherTable(r)
  {
  }

  lemma StreamVerdict(r: Request)
    requires r.cipherMode in {Cntr, CntrBitlen, ZucEea3, Snow3gUea2Bitlen, KasumiUea1Bitlen}
    ensures !CipherInvalid(r) <==> CipherTable(r)
  {
  }

  lemma OnePassVerdict(r: Request)
    requires r.cipherMode in {Gcm, Ccm, PonAesCntr}
    ensures !CipherInvalid(r) <==> CipherTable(r)
  {
  }

  lemma OtherVerdict(r: Request)
    requires r.cipherMode in {DocsisSecBpi, NullCipher, CustomCipher} || r.cipherMode.OtherCipher?
    ensures !CipherInvalid(r) <==> CipherTable(r)
  {
  }

  lemma CipherVerdict(r: Request)
    ensures !CipherInvalid(r) <==> CipherTable(r)
  {
    hide CipherInvalid, CipherTable;
    if r.cipherMode in {Cbc, Ecb} {
      AesVerdict(r);
    } else if r.cipherMode in {Des, Des3, DocsisDes} {
      DesVerdict(r);
    } else if r.cipherMode in {Cntr, CntrBitlen, ZucEea3, Snow3gUea2Bitlen, KasumiUea1Bitlen} {
      StreamVerdict(r);
    } else if r.cipherMode in {Gcm, Ccm, PonAesCntr} {
      OnePassVerdict(r);
    } else {
      OtherVerdict(r);
    }
  }

  predicate HashTable(r: Request) {
    && (HashRuleOf(r.hashAlg).Some? ==> HashFits(r, HashRuleOf(r.hashAlg).value))
    && (r.hashAlg == AesGmac ==> r.cipherMode == Gcm)
    && (r.hashAlg == AesCcm ==> r.cipherMode == Ccm)
    && (r.hashAlg == PonCrcBip ==> r.cipherMode == PonAesCntr)
    && (r.hashAlg == DocsisCrc32 ==> r.cipherMode == DocsisSecBpi)
    && Particulars(r)
  }

  lemma KeyedVerdict(r: Request)
    requires r.hashAlg in {HmacSha1, HmacSha224, HmacSha256, HmacSha384, HmacSha512, AesXcbc, Md5}
    ensures !HashInvalid(r) <==> HashTable(r)
  {
  }

  lemma PlainVerdict(r: Request)
    requires
      r.hashAlg in {Sha1, Sha224, Sha256, Sha384, Sha512, NullHash, CustomHash} || r.hashAlg.OtherHash?
    ensures !HashInvalid(r) <==> HashTable(r)
  {
  }

  lemma BitVerdict(r: Request)
    requires r.hashAlg in {AesCmac, AesCmacBitlen, ZucEia3Bitlen, Snow3gUia2Bitlen, KasumiUia1}
    ensures !HashInvalid(r) <==> HashTable(r)
  {
  }

  lemma PairVerdict(r: Request)
    requires r.hashAlg in {AesGmac, AesCcm, PonCrcBip, DocsisCrc32}
    ensures !HashInvalid(r) <==> HashTable(r)
  {
  }

  lemma HashVerdict(r: Request)
    ensures !HashInvalid(r) <==> HashTable(r)
  {
    hide HashInvalid, HashTable;
    if r.hashAlg in {HmacSha1, HmacSha224, HmacSha256, HmacSha384, HmacSha512, AesXcbc, Md5} {
      KeyedVerdict(r);
    } else if r.hashAlg in {AesCmac, AesCmacBitlen, ZucEia3Bitlen, Snow3gUia2Bitlen, KasumiUia1} {
      BitVerdict(r);
    } else if r.hashAlg in {AesGmac, AesCcm, PonCrcBip, DocsisCrc32} {
      PairVerdict(r);
    } else {
      PlainVerdict(r);
    }
  }

  /** Validation accepts exactly the requests that meet the table. */
  lemma AcceptedIff(r: Request)
    ensures
      !IsJobInvalid(r)
      <==>
      && CipherRuleOf(r.cipherMode).Some? && CipherFits(r, CipherRuleOf(r.cipherMode).value)
      && (HashRuleOf(r.hashAlg).Some? ==> HashFits(r, HashRuleOf(r.hashAlg).value))
      && Paired(r.cipherMode, r.hashAlg) && Particulars(r)
      && (r.cipherMode == CustomCipher ==> r.cipherFunc > 0)
      && (r.cipherMode == PonAesCntr ==> r.src != r.dst)
  {
    hide CipherInvalid, HashInvalid, KeysThere, CipherRuleOf, HashRuleOf, CipherFits, HashFits, Particulars;
    CipherVerdict(r);
    HashVerdict(r);
  }

  // ------------------------------------------------------------------ keys

  /** The engines that read enc_keys: those of encryption, and both directions of the modes that are
      their own inverse or end in a CFB block; PON only if there is something to cipher. */
  predicate ReadsEncKeys(r: Request) {
    match r.cipherMode
    case NullCipher => false
    case CustomCipher => false
    case OtherCipher(_) => false
    case PonAesCntr => r.cipherLen > 0
    case _ =>
      r.direction == Encrypt ||
      r.cipherMode in {Cntr, CntrBitlen, Ccm, ZucEea3, Snow3gUea2Bitlen, KasumiUea1Bitlen, DocsisSecBpi}
  }

  /** The engines that read dec_keys: every direction but ENCRYPT is dispatched as decryption. */
  predicate ReadsDecKeys(r: Request) {
    r.direction != Encrypt && r.cipherMode in {Cbc, Ecb, Gcm, Des, DocsisDes, Des3, DocsisSecBpi}
  }

  predicate LacksKey(r: Request) {
    (ReadsEncKeys(r) && r.encKeys == 0) || (ReadsDecKeys(r) && r.decKeys == 0)
  }

  /** An accepted job lacks a key that its engine reads in three cases only: ECB decryption, for which
      the other key is checked; PON, for which none is; and a direction that is neither of the two. */
  lemma AcceptedKeys(r: Request)
    requires !IsJobInvalid(r)
    ensures
      LacksKey(r)
      <==>
      || (r.cipherMode == Ecb && r.direction != Encrypt && r.decKeys == 0)
      || (r.cipherMode == PonAesCntr && r.cipherLen > 0 && r.encKeys == 0)
      || (r.direction.OtherDirection? && r.decKeys == 0 &&
          r.cipherMode in {Cbc, Gcm, Des, DocsisDes, DocsisSecBpi})
  {
    hide HashInvalid;
  }

  /** The verdict does not depend on a key that the engine does not read, ECB decryption apart. */
  lemma UnreadKeys(r: Request, key: Pointer, schedules: (Pointer, Pointer, Pointer))
    ensures !ReadsDecKeys(r) ==>
      IsJobInvalid(r.(decKeys := key, decSchedules := schedules)) == IsJobInvalid(r)
    ensures !ReadsEncKeys(r) && (r.cipherMode == Ecb ==> key > 0 && r.encKeys > 0) ==>
      IsJobInvalid(r.(encKeys := key, encSchedules := schedules)) == IsJobInvalid(r)
  {
    hide HashInvalid;
    HashKeys(r, r.(decKeys := key, decSchedules := schedules));
    HashKeys(r, r.(encKeys := key, encSchedules := schedules));
  }

  lemma HashKeys(r: Request, q: Request)
    requires q == r.(encKeys := q.encKeys, encSchedules := q.encSchedules, decKeys := q.decKeys,
                     decSchedules := q.decSchedules)
    ensures HashInvalid(q) == HashInvalid(r)
  {
  }

  // ------------------------------------------------------------------ tags and lengths

  /** The hash inside a plain or keyed algorithm. */
  function Inner(alg: HashAlg): Option<ShaDriver.ShaType> {
    match alg
    case Sha1 => Some(ShaDriver.Sha1)
    case HmacSha1 => Some(ShaDriver.Sha1)
    case Sha224 => Some(ShaDriver.Sha224)
    case HmacSha224 => Some(ShaDriver.Sha224)
    case Sha256 => Some(ShaDriver.Sha256)
    case HmacSha256 => Some(ShaDriver.Sha256)
    case Sha384 => Some(ShaDriver.Sha384)
    case HmacSha384 => Some(ShaDriver.Sha384)
    case Sha512 => Some(ShaDriver.Sha512)
    case HmacSha512 => Some(ShaDriver.Sha512)
    case _ => None
  }

  function DigestBytes(t: ShaDriver.ShaType): nat {
    t.DigestWords() * t.Width()
  }

  predicate Plain(alg: HashAlg) {
    alg in {Sha1, Sha224, Sha256, Sha384, Sha512}
  }

  /** An accepted tag of a plain hash is as long as what the SHA driver writes; that of a keyed one is
      that long too or half of it, for SHA-1 96 bits. */
  lemma AcceptedTag(r: Request)
    requires !IsJobInvalid(r) && Inner(r.hashAlg).Some?
    ensures
      var n := DigestBytes(Inner(r.hashAlg).value);
      if Plain(r.hashAlg) then r.tagLen == n
      else r.tagLen == n || r.tagLen == (if r.hashAlg == HmacSha1 then 12 else n / 2)
    ensures r.src > 0 && r.tag > 0
  {
    hide CipherInvalid;
  }

  /** What an accepted block cipher job has: whole blocks, and an IV of one block. */
  lemma AcceptedBlocks(r: Request)
    requires !IsJobInvalid(r)
    ensures r.cipherMode == Cbc ==> r.cipherLen >= 16 && r.cipherLen % 16 == 0 && r.ivLen == 16
    ensures r.cipherMode == Ecb ==> r.cipherLen >= 16 && r.cipherLen % 16 == 0 && r.ivLen == 0
    ensures r.cipherMode in {Des, Des3} ==> r.cipherLen >= 8 && r.cipherLen % 8 == 0 && r.ivLen == 8
    ensures r.cipherMode in {Cbc, Ecb, Des, Des3, DocsisDes} ==> r.src > 0 && r.dst > 0
    ensures r.cipherMode in {Cbc, Des, Des3, DocsisDes} ==> r.iv > 0
  {
    hide HashInvalid;
  }

  // ------------------------------------------------------------------ every mode and algorithm

  /** A job of that mode and that algorithm, with every pointer set and the least lengths. */
  function Example(mode: CipherMode, alg: HashAlg, direction: Direction): Request {
    var c := CipherRuleOf(mode);
    var h := HashRuleOf(alg);
    var (keyLen, ivLen, cipherLen) :=
      if c.Some? then (c.value.keyLens.least, c.value.ivLens.least, c.value.message.least) else (0, 0, 0);
    var (tagLen, hashLen) :=
      if h.Some? then (h.value.tagLens.least, h.value.message.least) else (0, 0);
    Request(1, 1, (1, 1, 1), (1, 1, 1), keyLen, 1, 2, 0, cipherLen, 0, hashLen, 1, ivLen, 1, tagLen,
            1, 1, 1, mode, direction, alg, if direction == Encrypt then HashCipher else CipherHash, 0, 1, 1)
  }

  predicate IsExample(r: Request, mode: CipherMode, alg: HashAlg, direction: Direction) {
    !IsJobInvalid(r) && r.cipherMode == mode && r.hashAlg == alg && r.direction == direction
  }

  /** The modes and algorithms that some accepted job has are those of the enumerations, paired; in
      either direction. */
  lemma AcceptedCombinations(mode: CipherMode, alg: HashAlg, direction: Direction)
    ensures
      (exists r :: IsExample(r, mode, alg, direction))
      <==> Paired(mode, alg) && !mode.OtherCipher? && !alg.OtherHash?
  {
    hide IsExample, Paired, Example;
    if Paired(mode, alg) && !mode.OtherCipher? && !alg.OtherHash? {
      ExampleIs(mode, alg, direction);
    }
    if q :| IsExample(q, mode, alg, direction) {
      ExampleIsPaired(q, mode, alg, direction);
    }
  }

  lemma ExampleIs(mode: CipherMode, alg: HashAlg, direction: Direction)
    requires Paired(mode, alg) && !mode.OtherCipher? && !alg.OtherHash?
    ensures IsExample(Example(mode, alg, direction), mode, alg, direction)
  {
    hide IsJobInvalid, Paired, Example;
    ExampleAccepted(mode, alg, direction);
  }

  lemma ExampleIsPaired(r: Request, mode: CipherMode, alg: HashAlg, direction: Direction)
    requires IsExample(r, mode, alg, direction)
    ensures Paired(mode, alg) && !mode.OtherCipher? && !alg.OtherHash?
  {
    hide IsJobInvalid, Paired;
    AcceptedIsPaired(r);
  }

  lemma AcceptedIsPaired(r: Request)
    requires !IsJobInvalid(r)
    ensures Paired(r.cipherMode, r.hashAlg) && !r.cipherMode.OtherCipher? && !r.hashAlg.OtherHash?
  {
    hide IsJobInvalid, CipherRuleOf, HashRuleOf, CipherFits, HashFits, Particulars, Paired;
    AcceptedIff(r);
    NoOtherMode(r);
    NoOtherHash(r);
  }

  lemma NoOtherHash(r: Request)
    requires Particulars(r)
    ensures !r.hashAlg.OtherHash?
  {
  }

  lemma NoOtherMode(r: Request)
    requires CipherRuleOf(r.cipherMode).Some?
    ensures !r.cipherMode.OtherCipher?
  {
  }

  lemma ExampleAccepted(mode: CipherMode, alg: HashAlg, direction: Direction)
    requires Paired(mode, alg) && !mode.OtherCipher? && !alg.OtherHash?
    ensures !IsJobInvalid(Example(mode, alg, direction))
    ensures
      var r := Example(mode, alg, direction);
      r.cipherMode == mode && r.hashAlg == alg && r.direction == direction
  {
    hide IsJobInvalid, CipherRuleOf, HashRuleOf, CipherFits, HashFits, Particulars, Paired;
    var r := Example(mode, alg, direction);
    AcceptedIff(r);
    CipherRuleSensible(mode);
    HashRuleSensible(alg);
    CipherLeast(r, CipherRuleOf(mode).value);
    if HashRuleOf(alg).Some? {
      HashLeast(r, HashRuleOf(alg).value);
    }
    ExampleParticulars(mode, alg, direction);
  }

  predicate Sensible(l: Lengths) {
    l.most.Some? ==> l.least <= l.most.value
  }

  lemma CipherRuleSensible(mode: CipherMode)
    requires !mode.OtherCipher?
    ensures CipherRuleOf(mode).Some?
    ensures
      var c := CipherRuleOf(mode).value;
      Sensible(c.keyLens) && Sensible(c.ivLens) && Sensible(c.message)
  {
  }

  lemma HashRuleSensible(alg: HashAlg)
    ensures HashRuleOf(alg).Some? ==>
      Sensible(HashRuleOf(alg).value.tagLens) && Sensible(HashRuleOf(alg).value.message)
  {
  }

  lemma ExampleParticulars(mode: CipherMode, alg: HashAlg, direction: Direction)
    requires Paired(mode, alg) && !alg.OtherHash?
    ensures Particulars(Example(mode, alg, direction))
  {
  }

  lemma CipherLeast(r: Request, c: CipherRule)
    requires r.src > 0 && r.dst > 0 && r.iv > 0 && r.encKeys > 0 && r.decKeys > 0
    requires r.encSchedules == r.decSchedules == (1, 1, 1)
    requires r.keyLen == c.keyLens.least && r.ivLen == c.ivLens.least && r.cipherLen == c.message.least
    requires Sensible(c.keyLens) && Sensible(c.ivLens) && Sensible(c.message)
    ensures CipherFits(r, c)
  {
    hide Lengths.Has;
    LeastIn(c.keyLens);
    LeastIn(c.ivLens);
    LeastIn(c.message);
  }

  lemma HashLeast(r: Request, h: HashRule)
    requires r.src > 0 && r.tag > 0
    requires r.tagLen == h.tagLens.least && r.hashLen == h.message.least
    requires Sensible(h.tagLens) && Sensible(h.message)
    ensures HashFits(r, h)
  {
    hide Lengths.Has;
    LeastIn(h.tagLens);
    LeastIn(h.message);
  }

  lemma LeastIn(l: Lengths)
    requires Sensible(l)
    ensures l.Has(l.least)
  {
  }

  /** ECB decryption without the key it reads is accepted, and with that key alone it is refused. */
  lemma EcbDecryption()
    ensures
      var r := Example(Ecb, NullHash, Decrypt);
      && !IsJobInvalid(r.(decKeys := 0)) && LacksKey(r.(decKeys := 0))
      && IsJobInvalid(r.(encKeys := 0)) && !LacksKey(r.(encKeys := 0))
  {
    hide HashInvalid;
    var r := Example(Ecb, NullHash, Decrypt);
    ExampleAccepted(Ecb, NullHash, Decrypt);
    assert !CipherInvalid(r.(decKeys := 0));
    HashKeys(r, r.(decKeys := 0));
  }
}
