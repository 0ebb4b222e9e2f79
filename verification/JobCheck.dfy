/** `is_job_invalid`: the validation that SUBMIT_JOB runs and SUBMIT_JOB_NOCHECK skips. */
module JobCheck {
  import opened ImbJob

  const MAX_PON_LEN := 16384 + 8
  const ZUC_MIN_BITLEN := 1
  const ZUC_MAX_BITLEN := 65504
  const ZUC_MAX_BYTELEN := 8188
  const KASUMI_BLOCK_SIZE := 8
  const KASUMI_MAX_LEN := 20000
  const SNOW3G_MAX_BITLEN := 0xFFFF_FFFF
  const DOCSIS_CRC32_MIN_ETH_PDU_SIZE := 14
  const DOCSIS_CRC32_TAG_SIZE := 4

  predicate NoBuffers(r: Request) {
    r.src == NULL || r.dst == NULL
  }

  /** The key of the direction in use is missing. */
  predicate NoDirectionalKey(r: Request) {
    || (r.direction == Encrypt && r.encKeys == NULL)
    || (r.direction == Decrypt && r.decKeys == NULL)
  }

  predicate BadAesKeyLen(r: Request) {
    r.keyLen != 16 && r.keyLen != 24 && r.keyLen != 32
  }

  predicate CipherInvalid(r: Request) {
    match r.cipherMode
    case Cbc =>
      || NoBuffers(r) || r.iv == NULL || NoDirectionalKey(r) || BadAesKeyLen(r)
      || r.cipherLen == 0 || r.cipherLen % 16 != 0 || r.ivLen != 16
    case Ecb =>
      || NoBuffers(r) || r.encKeys == NULL || BadAesKeyLen(r)
      || r.cipherLen == 0 || r.cipherLen % 16 != 0 || r.ivLen != 0
    case Cntr => CounterInvalid(r)
    case CntrBitlen => CounterInvalid(r)
    case NullCipher => false
    case DocsisSecBpi =>
      || NoBuffers(r) || r.iv == NULL || r.encKeys == NULL
      || (r.direction == Decrypt && r.decKeys == NULL)
      || (r.keyLen != 16 && r.keyLen != 32) || r.ivLen != 16
    case Gcm =>
      || (r.cipherLen != 0 && NoBuffers(r)) || r.iv == NULL || NoDirectionalKey(r)
      || BadAesKeyLen(r) || r.ivLen == 0 || r.hashAlg != AesGmac
    case CustomCipher => r.cipherFunc == NULL
    case Des =>
      || NoBuffers(r) || r.iv == NULL || NoDirectionalKey(r) || r.keyLen != 8
      || r.cipherLen == 0 || r.cipherLen % 8 != 0 || r.ivLen != 8
    case DocsisDes =>
      || NoBuffers(r) || r.iv == NULL || NoDirectionalKey(r) || r.keyLen != 8
      || r.cipherLen == 0 || r.ivLen != 8
    case Ccm =>
      || (r.cipherLen != 0 && NoBuffers(r)) || r.iv == NULL || r.encKeys == NULL
      || r.keyLen != 16 || r.ivLen > 13 || r.ivLen < 7 || r.hashAlg != AesCcm
    case Des3 =>
      || NoBuffers(r) || r.iv == NULL || r.keyLen != 24
      || r.cipherLen == 0 || r.cipherLen % 8 != 0 || r.ivLen != 8
      || (if r.direction == Encrypt
          then r.encKeys == NULL || MissingSchedule(r.encSchedules)
          else r.decKeys == NULL || MissingSchedule(r.decSchedules))
    case PonAesCntr =>
      || NoBuffers(r) || r.src == r.dst || r.hashAlg != PonCrcBip
      || (r.cipherLen != 0 &&
          (|| r.cipherLen % 4 != 0 || r.cipherLen > MAX_PON_LEN - 8
           || r.keyLen != 16 || r.ivLen != 16))
    case ZucEea3 =>
      || NoBuffers(r) || r.iv == NULL || r.encKeys == NULL || r.keyLen != 16
      || r.cipherLen == 0 || r.cipherLen > ZUC_MAX_BYTELEN || r.ivLen != 16
    case Snow3gUea2Bitlen =>
      || NoBuffers(r) || r.iv == NULL || r.encKeys == NULL || r.keyLen != 16
      || r.cipherLen == 0 || r.cipherLen > SNOW3G_MAX_BITLEN || r.ivLen != 16
    case KasumiUea1Bitlen =>
      || NoBuffers(r) || r.iv == NULL || r.encKeys == NULL || r.keyLen != 16
      || r.cipherLen == 0 || r.cipherLen > KASUMI_MAX_LEN || r.ivLen != 8
    case OtherCipher(_) => true
  }

  predicate CounterInvalid(r: Request) {
    || NoBuffers(r) || r.iv == NULL || r.encKeys == NULL || BadAesKeyLen(r)
    || (r.ivLen != 16 && r.ivLen != 12) || r.cipherLen == 0
  }

  predicate MissingSchedule(ks: (Pointer, Pointer, Pointer)) {
    ks.0 == NULL || ks.1 == NULL || ks.2 == NULL
  }

  /** The truncated tag length of RFC-style IPsec use (for the plain hashes: the digest length). */
  function TagLenIpsec(alg: HashAlg): nat {
    match alg
    case HmacSha1 => 12
    case HmacSha224 => 14
    case HmacSha256 => 16
    case HmacSha384 => 24
    case HmacSha512 => 32
    case AesXcbc => 12
    case Md5 => 12
    case Sha1 => 20
    case Sha224 => 28
    case Sha256 => 32
    case Sha384 => 48
    case Sha512 => 64
    case _ => 0
  }

  /** The full tag length of the keyed hashes. */
  function TagLenFips(alg: HashAlg): nat {
    match alg
    case HmacSha1 => 20
    case HmacSha224 => 28
    case HmacSha256 => 32
    case HmacSha384 => 48
    case HmacSha512 => 64
    case AesXcbc => 12
    case Md5 => 16
    case _ => 0
  }

  predicate HashInvalid(r: Request) {
    match r.hashAlg
    case HmacSha1 => KeyedHashInvalid(r)
    case AesXcbc => KeyedHashInvalid(r)
    case Md5 => KeyedHashInvalid(r)
    case HmacSha224 => KeyedHashInvalid(r)
    case HmacSha256 => KeyedHashInvalid(r)
    case HmacSha384 => KeyedHashInvalid(r)
    case HmacSha512 => KeyedHashInvalid(r)
    case NullHash => false
    case AesGmac =>
      || r.tagLen < 1 || r.tagLen > 16 || (r.u1 > 0 && r.u0 == NULL)
      || r.cipherMode != Gcm || r.tag == NULL
    case CustomHash => r.hashFunc == NULL
    case AesCcm =>
      || (r.hashLen != 0 && r.src == NULL) || r.u1 > 46 || (r.u1 > 0 && r.u0 == NULL)
      || r.tagLen < 4 || r.tagLen > 16 || r.tagLen % 2 != 0 || r.cipherMode != Ccm
      || r.cipherLen != r.hashLen || r.cipherStart != r.hashStart
    case AesCmac => CmacInvalid(r)
    case AesCmacBitlen => CmacInvalid(r)
    case Sha1 => PlainHashInvalid(r)
    case Sha224 => PlainHashInvalid(r)
    case Sha256 => PlainHashInvalid(r)
    case Sha384 => PlainHashInvalid(r)
    case Sha512 => PlainHashInvalid(r)
    case PonCrcBip =>
      || r.hashLen % 4 != 0 || r.hashLen < 8 || r.hashLen > MAX_PON_LEN || r.tagLen != 8
      || r.cipherMode != PonAesCntr || r.tag == NULL
    case ZucEia3Bitlen =>
      || r.src == NULL || r.hashLen < ZUC_MIN_BITLEN || r.hashLen > ZUC_MAX_BITLEN
      || r.u0 == NULL || r.u1 == NULL || r.tagLen != 4
    case DocsisCrc32 =>
      || r.cipherMode != DocsisSecBpi
      || (r.cipherLen != 0 && r.hashLen != 0 &&
          (|| r.cipherLen + (DOCSIS_CRC32_MIN_ETH_PDU_SIZE - 2 - DOCSIS_CRC32_TAG_SIZE) > r.hashLen
           || r.cipherStart < r.hashStart + 12))
      || r.tag == NULL || r.tagLen != 4
      || (r.direction == Encrypt && r.chainOrder != HashCipher)
      || (r.direction == Decrypt && r.chainOrder != CipherHash)
    case Snow3gUia2Bitlen =>
      || r.src == NULL || r.hashLen == 0 || r.hashLen > SNOW3G_MAX_BITLEN
      || r.u0 == NULL || r.u1 == NULL || r.tagLen != 4
    case KasumiUia1 =>
      || r.src == NULL || r.hashLen < KASUMI_BLOCK_SIZE + 1 || r.hashLen > KASUMI_MAX_LEN / 8
      || r.u0 == NULL || r.tagLen != 4
    case OtherHash(_) => true
  }

  predicate KeyedHashInvalid(r: Request) {
    || r.src == NULL
    || (r.tagLen != TagLenIpsec(r.hashAlg) && r.tagLen != TagLenFips(r.hashAlg))
    || r.hashLen == 0 || r.tag == NULL
  }

  predicate PlainHashInvalid(r: Request) {
    r.tagLen != TagLenIpsec(r.hashAlg) || r.src == NULL || r.tag == NULL
  }

  predicate CmacInvalid(r: Request) {
    || r.src == NULL || r.u0 == NULL || r.u1 == NULL || r.u2 == NULL
    || r.tagLen < 4 || r.tagLen > 16 || r.tag == NULL
  }

  predicate IsJobInvalid(r: Request) {
    CipherInvalid(r) || HashInvalid(r)
  }
}
