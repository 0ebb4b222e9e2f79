/**
  The job descriptor of the multi-buffer crypto library: `IMB_JOB` and the enumerations it uses.

  The fields a caller fills in are collected in `Request`; `Job` adds the `status` word, the one
  field that the scheduler works on.  A pointer is a number, with 0 standing for NULL.
*/
module ImbJob {

  type Pointer = nat

  const NULL: Pointer := 0

  // JOB_STS
  const BEING_PROCESSED := 0
  const COMPLETED_AES := 1
  const COMPLETED_HMAC := 2
  const COMPLETED := 3
  const INVALID_ARGS := 4
  const INTERNAL_ERROR := 5

  datatype CipherMode =
    | Cbc | Cntr | NullCipher | DocsisSecBpi | Gcm | CustomCipher | Des | DocsisDes
    | Ccm | Des3 | PonAesCntr | Ecb | CntrBitlen | ZucEea3 | Snow3gUea2Bitlen | KasumiUea1Bitlen
    | OtherCipher(code: int) // a value outside the enumeration, possible with SUBMIT_JOB_NOCHECK

  datatype HashAlg =
    | HmacSha1 | HmacSha224 | HmacSha256 | HmacSha384 | HmacSha512 | AesXcbc | Md5
    | NullHash | AesGmac | CustomHash | AesCcm | AesCmac
    | Sha1 | Sha224 | Sha256 | Sha384 | Sha512 | AesCmacBitlen | PonCrcBip
    | ZucEia3Bitlen | DocsisCrc32 | Snow3gUia2Bitlen | KasumiUia1
    | OtherHash(code: int)

  datatype Direction = Encrypt | Decrypt | OtherDirection(code: int)

  datatype ChainOrder = CipherHash | HashCipher | OtherOrder(code: int)

  /** Everything the caller fills in.  `u0`, `u1`, `u2` are the three words of the union `u`; a
      length "in bits" and the length "in bytes" it shares a union with are one field here. */
  datatype Request = Request(
    encKeys: Pointer,
    decKeys: Pointer,
    encSchedules: (Pointer, Pointer, Pointer), // what encKeys points at, for 3DES
    decSchedules: (Pointer, Pointer, Pointer),
    keyLen: nat,
    src: Pointer,
    dst: Pointer,
    cipherStart: nat,
    cipherLen: nat,
    hashStart: nat,
    hashLen: nat,
    iv: Pointer,
    ivLen: nat,
    tag: Pointer,
    tagLen: nat,
    u0: nat,
    u1: nat,
    u2: nat,
    cipherMode: CipherMode,
    direction: Direction,
    hashAlg: HashAlg,
    chainOrder: ChainOrder,
    userData: nat,
    cipherFunc: Pointer,
    hashFunc: Pointer)

  datatype Job = Job(req: Request, status: nat)

  /** `status |= bit`, for the two stage bits. */
  function SetBit(status: nat, bit: nat): nat
    requires bit == COMPLETED_AES || bit == COMPLETED_HMAC
  {
    if status / bit % 2 == 1 then status else status + bit
  }

  /** The length the AES-CMAC lanes count in bits, from the caller's length in bytes. */
  function BitLength(r: Request): Request {
    r.(hashLen := r.hashLen * 8 % 0x1_0000_0000_0000_0000)
  }
}
