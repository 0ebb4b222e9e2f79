/**
  Which engine a job goes to at each stage, and which engine a flush drains.

  A `Lane` is one out-of-order manager: it may keep a job for a while and hand back any job that it
  holds.  Everything else runs to completion inside the submit call.
*/
module Dispatch {
  import opened ImbJob
  import opened JobCheck

  datatype Lane =
    | Aes128Enc | Aes192Enc | Aes256Enc
    | Docsis128Sec | Docsis128Crc | Docsis256Sec | Docsis256Crc
    | DesEnc | DesDec | Des3Enc | Des3Dec | DocsisDesEnc | DocsisDesDec | ZucEea3Lane
    | HmacSha1Lane | HmacSha224Lane | HmacSha256Lane | HmacSha384Lane | HmacSha512Lane
    | HmacMd5Lane | AesXcbcLane | AesCcmLane | AesCmacLane | ZucEia3Lane

  predicate IsCipherLane(l: Lane) {
    || l.Aes128Enc? || l.Aes192Enc? || l.Aes256Enc?
    || l.Docsis128Sec? || l.Docsis128Crc? || l.Docsis256Sec? || l.Docsis256Crc?
    || l.DesEnc? || l.DesDec? || l.Des3Enc? || l.Des3Dec? || l.DocsisDesEnc? || l.DocsisDesDec?
    || l.ZucEea3Lane?
  }

  /** The stage bit a lane sets in the jobs that it hands back. */
  function LaneBit(l: Lane): nat {
    if IsCipherLane(l) then COMPLETED_AES else COMPLETED_HMAC
  }

  /** What is decided when the library is compiled and initialised for one instruction set. */
  datatype Build = Build(
    desLanes: bool,    // the AVX512 build has managers for DES, 3DES and DOCSIS-DES
    docsisCrcLane: bool) // the AVX512 build queues every DOCSIS frame with CRC32, short ones too

  /** One submit call: queue in a lane, or finish the stage (or both stages) at once.
      The `Assumed` cases are the final `else` and `default` branches of the C code. */
  datatype Action =
    | ToLane(lane: Lane)
    | Inline        // sets the bit of this stage
    | InlineBoth    // GCM and PON: cipher and tag in one pass, status becomes COMPLETED
    | Custom        // calls back into the application
    | Assumed       // taken for the NULL algorithm (or one the cipher stage has done): sets the bit

  datatype Flush =
    | FromLane(lane: Lane)
    | FromCustom
    | Nothing
    | FromDefault   // hash stage only: sets the bit if it is still clear

  /** The if-else chain over the AES key length; the last branch is commented "assume 32". */
  datatype KeyBranch = Key16 | Key24 | KeyAssumed32

  function KeyBranchOf(keyLen: nat): KeyBranch {
    if keyLen == 16 then Key16 else if keyLen == 24 then Key24 else KeyAssumed32
  }

  function CbcEncLane(keyLen: nat): Lane {
    match KeyBranchOf(keyLen)
    case Key16 => Aes128Enc
    case Key24 => Aes192Enc
    case KeyAssumed32 => Aes256Enc
  }

  /** DOCSIS knows two key lengths only: everything but 16 takes the 32-byte branch. */
  function DocsisLane(r: Request): Lane {
    if r.keyLen == 16 then
      if r.hashAlg == DocsisCrc32 then Docsis128Crc else Docsis128Sec
    else
      if r.hashAlg == DocsisCrc32 then Docsis256Crc else Docsis256Sec
  }

  /** A frame below one AES block is a single CFB block, done at once, unless the CRC lane of the
      AVX512 build takes it. */
  function SubmitDocsisEnc(b: Build, r: Request): Action {
    if r.cipherLen >= 16 || (b.docsisCrcLane && r.hashAlg == DocsisCrc32)
    then ToLane(DocsisLane(r)) else Inline
  }

  function SubmitAesEnc(b: Build, r: Request): Action {
    match r.cipherMode
    case Cbc => ToLane(CbcEncLane(r.keyLen))
    case Cntr => Inline
    case CntrBitlen => Inline
    case Ecb => Inline
    case DocsisSecBpi => SubmitDocsisEnc(b, r)
    case PonAesCntr => InlineBoth
    case Gcm => InlineBoth
    case CustomCipher => Custom
    case Des => if b.desLanes then ToLane(DesEnc) else Inline
    case DocsisDes => if b.desLanes then ToLane(DocsisDesEnc) else Inline
    case Des3 => if b.desLanes then ToLane(Des3Enc) else Inline
    case Ccm => Inline
    case ZucEea3 => ToLane(ZucEea3Lane)
    case Snow3gUea2Bitlen => Inline
    case KasumiUea1Bitlen => Inline
    case _ => Assumed
  }

  function SubmitAesDec(b: Build, r: Request): Action {
    match r.cipherMode
    case Cbc => Inline
    case Cntr => Inline
    case CntrBitlen => Inline
    case Ecb => Inline
    case DocsisSecBpi => Inline
    case PonAesCntr => InlineBoth
    case Gcm => InlineBoth
    case Des => if b.desLanes then ToLane(DesDec) else Inline
    case DocsisDes => if b.desLanes then ToLane(DocsisDesDec) else Inline
    case Des3 => if b.desLanes then ToLane(Des3Dec) else Inline
    case CustomCipher => Custom
    case Ccm => Inline
    case ZucEea3 => ToLane(ZucEea3Lane)
    case Snow3gUea2Bitlen => Inline
    case KasumiUea1Bitlen => Inline
    case _ => Assumed
  }

  function SubmitAes(b: Build, r: Request): Action {
    if r.direction == Encrypt then SubmitAesEnc(b, r) else SubmitAesDec(b, r)
  }

  function FlushAesEnc(b: Build, r: Request): Flush {
    match r.cipherMode
    case Cbc => FromLane(CbcEncLane(r.keyLen))
    case Gcm => Nothing // FLUSH_JOB_AES_GCM_ENC returns NULL in every build
    case DocsisSecBpi => FromLane(DocsisLane(r))
    case Des => if b.desLanes then FromLane(DesEnc) else Nothing
    case Des3 => if b.desLanes then FromLane(Des3Enc) else Nothing
    case DocsisDes => if b.desLanes then FromLane(DocsisDesEnc) else Nothing
    case CustomCipher => FromCustom
    case ZucEea3 => FromLane(ZucEea3Lane)
    case _ => Nothing
  }

  /** Decryption flushes neither CBC nor DOCSIS lanes, and no custom cipher. */
  function FlushAesDec(b: Build, r: Request): Flush {
    match r.cipherMode
    case Gcm => Nothing
    case Des => if b.desLanes then FromLane(DesDec) else Nothing
    case Des3 => if b.desLanes then FromLane(Des3Dec) else Nothing
    case DocsisDes => if b.desLanes then FromLane(DocsisDesDec) else Nothing
    case ZucEea3 => FromLane(ZucEea3Lane)
    case _ => Nothing
  }

  function FlushAes(b: Build, r: Request): Flush {
    if r.direction == Encrypt then FlushAesEnc(b, r) else FlushAesDec(b, r)
  }

  function SubmitHash(r: Request): Action {
    match r.hashAlg
    case HmacSha1 => ToLane(HmacSha1Lane)
    case HmacSha224 => ToLane(HmacSha224Lane)
    case HmacSha256 => ToLane(HmacSha256Lane)
    case HmacSha384 => ToLane(HmacSha384Lane)
    case HmacSha512 => ToLane(HmacSha512Lane)
    case AesXcbc => ToLane(AesXcbcLane)
    case Md5 => ToLane(HmacMd5Lane)
    case CustomHash => Custom
    case AesCcm => ToLane(AesCcmLane)
    case AesCmac => ToLane(AesCmacLane)
    case AesCmacBitlen => ToLane(AesCmacLane)
    case Sha1 => Inline
    case Sha224 => Inline
    case Sha256 => Inline
    case Sha384 => Inline
    case Sha512 => Inline
    case ZucEia3Bitlen => ToLane(ZucEia3Lane)
    case Snow3gUia2Bitlen => Inline
    case KasumiUia1 => Inline
    case _ => Assumed
  }

  function FlushHash(r: Request): Flush {
    match r.hashAlg
    case HmacSha1 => FromLane(HmacSha1Lane)
    case HmacSha224 => FromLane(HmacSha224Lane)
    case HmacSha256 => FromLane(HmacSha256Lane)
    case HmacSha384 => FromLane(HmacSha384Lane)
    case HmacSha512 => FromLane(HmacSha512Lane)
    case AesXcbc => FromLane(AesXcbcLane)
    case Md5 => FromLane(HmacMd5Lane)
    case CustomHash => FromCustom
    case AesCcm => FromLane(AesCcmLane)
    case AesCmac => FromLane(AesCmacLane)
    case AesCmacBitlen => FromLane(AesCmacLane)
    case ZucEia3Bitlen => FromLane(ZucEia3Lane)
    case _ => FromDefault
  }

  /** A lane that takes a job in is the lane that a flush for this job drains; the only flush of a
      lane the job is not submitted to is that of a DOCSIS frame done at once. */
  lemma FlushDrainsSubmitLane(b: Build, r: Request, l: Lane)
    ensures SubmitAes(b, r) == ToLane(l) ==> FlushAes(b, r) == FromLane(l)
    ensures FlushAes(b, r) == FromLane(l) && SubmitAes(b, r) != ToLane(l) ==>
      r.cipherMode == DocsisSecBpi && r.direction == Encrypt && r.cipherLen < 16
    ensures SubmitHash(r) == ToLane(l) <==> FlushHash(r) == FromLane(l)
    ensures SubmitAes(b, r) == ToLane(l) ==> IsCipherLane(l)
    ensures SubmitHash(r) == ToLane(l) ==> !IsCipherLane(l)
  {
  }

  predicate UsesAesKeyBranches(r: Request) {
    r.cipherMode == Cbc || r.cipherMode == Ecb || r.cipherMode == Cntr
    || r.cipherMode == CntrBitlen || r.cipherMode == Gcm
  }

  /** For a job that validation accepts, every "assume 32" branch is taken for 32-byte keys only, and
      the "assume NULL" branch of the cipher submit for the NULL cipher only. */
  lemma AcceptedKeysAndCipher(b: Build, r: Request)
    requires !IsJobInvalid(r)
    ensures UsesAesKeyBranches(r) ==> (KeyBranchOf(r.keyLen) == KeyAssumed32 <==> r.keyLen == 32)
    ensures r.cipherMode == DocsisSecBpi && r.keyLen != 16 ==> r.keyLen == 32
    ensures SubmitAes(b, r) == Assumed <==> r.cipherMode == NullCipher
  {
  }

  /** Validation pairs the combined modes with their hashes, so that a one-pass job is never half
      one algorithm and half another. */
  lemma AcceptedPairs(r: Request)
    requires !IsJobInvalid(r)
    ensures r.cipherMode == Gcm <==> r.hashAlg == AesGmac
    ensures r.cipherMode == Ccm <==> r.hashAlg == AesCcm
    ensures r.cipherMode == PonAesCntr <==> r.hashAlg == PonCrcBip
    ensures r.hashAlg == DocsisCrc32 ==> r.cipherMode == DocsisSecBpi
  {
  }

  /** What a cipher lane is for: the mode, the key length, and the direction if it has one. */
  datatype CipherUse = CipherUse(mode: CipherMode, keyLen: nat, encrypt: bool, decrypt: bool)

  function CipherOf(l: Lane): CipherUse {
    match l
    case Aes128Enc => CipherUse(Cbc, 16, true, false)
    case Aes192Enc => CipherUse(Cbc, 24, true, false)
    case Aes256Enc => CipherUse(Cbc, 32, true, false)
    case Docsis128Sec => CipherUse(DocsisSecBpi, 16, true, false)
    case Docsis128Crc => CipherUse(DocsisSecBpi, 16, true, false)
    case Docsis256Sec => CipherUse(DocsisSecBpi, 32, true, false)
    case Docsis256Crc => CipherUse(DocsisSecBpi, 32, true, false)
    case DesEnc => CipherUse(Des, 8, true, false)
    case DesDec => CipherUse(Des, 8, false, true)
    case Des3Enc => CipherUse(Des3, 24, true, false)
    case Des3Dec => CipherUse(Des3, 24, false, true)
    case DocsisDesEnc => CipherUse(DocsisDes, 8, true, false)
    case DocsisDesDec => CipherUse(DocsisDes, 8, false, true)
    case ZucEea3Lane => CipherUse(ZucEea3, 16, true, true)
    case _ => CipherUse(NullCipher, 0, false, false)
  }

  /** An accepted job that is queued in a cipher lane is a job for that lane: its mode, its key length,
      its direction, and its CRC if and only if the lane computes one. */
  lemma CipherLaneServes(b: Build, r: Request, l: Lane)
    requires !IsJobInvalid(r) && SubmitAes(b, r) == ToLane(l)
    ensures
      var u := CipherOf(l);
      && r.cipherMode == u.mode && r.keyLen == u.keyLen
      && (if r.direction == Encrypt then u.encrypt else u.decrypt)
    ensures r.hashAlg == DocsisCrc32 <==> l == Docsis128Crc || l == Docsis256Crc
  {
    AcceptedPairs(r);
  }

  /** The lane computes the CRC of DOCSIS. */
  predicate HasCrc(l: Lane) {
    l == Docsis128Crc || l == Docsis256Crc
  }

  /** The build has the lane, and the job is one that it takes: a DOCSIS frame below one block is not
      queued, unless the CRC lane takes it. */
  predicate Takes(b: Build, l: Lane, cipherLen: nat) {
    match CipherOf(l).mode
    case DocsisSecBpi => cipherLen >= 16 || (b.docsisCrcLane && HasCrc(l))
    case Des => b.desLanes
    case Des3 => b.desLanes
    case DocsisDes => b.desLanes
    case _ => true
  }

  /** Exactly the accepted jobs that are queued in a cipher lane. */
  lemma CipherLaneIff(b: Build, r: Request, l: Lane)
    requires !IsJobInvalid(r) && IsCipherLane(l)
    ensures
      var u := CipherOf(l);
      SubmitAes(b, r) == ToLane(l)
      <==>
      && r.cipherMode == u.mode && r.keyLen == u.keyLen && Takes(b, l, r.cipherLen)
      && (if r.direction == Encrypt then u.encrypt else u.decrypt)
      && (HasCrc(l) <==> r.hashAlg == DocsisCrc32)
  {
    hide IsJobInvalid, CipherInvalid, HashInvalid;
    AcceptedPairs(r);
    AcceptedKeyLens(r);
  }

  lemma AcceptedKeyLens(r: Request)
    requires !IsJobInvalid(r)
    ensures r.cipherMode == Cbc ==> r.keyLen in {16, 24, 32}
    ensures r.cipherMode == DocsisSecBpi ==> r.keyLen in {16, 32}
    ensures r.cipherMode in {Des, DocsisDes} ==> r.keyLen == 8
    ensures r.cipherMode == Des3 ==> r.keyLen == 24
    ensures r.cipherMode == ZucEea3 ==> r.keyLen == 16
  {
    hide HashInvalid;
  }

  /** The stages that are not queued: both at once for the one-pass modes, a callback for the custom
      ones. */
  lemma OtherActions(b: Build, r: Request)
    ensures SubmitAes(b, r) == InlineBoth <==> r.cipherMode in {Gcm, PonAesCntr}
    ensures SubmitAes(b, r) == Custom <==> r.cipherMode == CustomCipher
    ensures SubmitHash(r) == Custom <==> r.hashAlg == CustomHash
    ensures SubmitHash(r) == Inline <==>
      r.hashAlg in {Sha1, Sha224, Sha256, Sha384, Sha512, Snow3gUia2Bitlen, KasumiUia1}
    ensures FlushAes(b, r) == FromCustom <==> r.cipherMode == CustomCipher && r.direction == Encrypt
    ensures FlushHash(r) == FromCustom <==> r.hashAlg == CustomHash
  {
  }

  /** What a hash lane is for. */
  function HashOf(l: Lane): HashAlg {
    match l
    case HmacSha1Lane => HmacSha1
    case HmacSha224Lane => HmacSha224
    case HmacSha256Lane => HmacSha256
    case HmacSha384Lane => HmacSha384
    case HmacSha512Lane => HmacSha512
    case HmacMd5Lane => Md5
    case AesXcbcLane => AesXcbc
    case AesCcmLane => AesCcm
    case AesCmacLane => AesCmac
    case ZucEia3Lane => ZucEia3Bitlen
    case _ => NullHash
  }

  /** Exactly the jobs that are queued in a hash lane: those of its algorithm, and the bit-counting
      AES-CMAC with the byte-counting one. */
  lemma HashLaneIff(r: Request, l: Lane)
    ensures
      SubmitHash(r) == ToLane(l)
      <==>
      !IsCipherLane(l) &&
      (r.hashAlg == HashOf(l) || (r.hashAlg == AesCmacBitlen && HashOf(l) == AesCmac))
  {
  }

  /** A hash lane gets one algorithm, byte- and bit-counting AES-CMAC being one. */
  lemma HashLaneServes(r: Request, q: Request, l: Lane)
    requires SubmitHash(r) == SubmitHash(q) == ToLane(l)
    ensures
      || r.hashAlg == q.hashAlg
      || (r.hashAlg in {AesCmac, AesCmacBitlen} && q.hashAlg in {AesCmac, AesCmacBitlen})
  {
  }

  /** The algorithms that take the two default branches of the hash stage.  The comments there name
      GCM, PON and NULL for the submit, GCM and NULL for the flush; the code sends more. */
  lemma AcceptedDefaultHashes(r: Request)
    requires !IsJobInvalid(r)
    ensures SubmitHash(r) == Assumed <==>
      r.hashAlg in {NullHash, AesGmac, PonCrcBip, DocsisCrc32}
    ensures FlushHash(r) == FromDefault <==>
      r.hashAlg in {NullHash, AesGmac, PonCrcBip, DocsisCrc32, Sha1, Sha224, Sha256, Sha384, Sha512,
                    Snow3gUia2Bitlen, KasumiUia1}
  {
  }
}
