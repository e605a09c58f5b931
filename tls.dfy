/** The error classification and result mapping of the TLS socket wrapper
    (src/tls.c).  OpenSSL itself is not modelled: every call into it is
    replaced by its observable outcome (the integer it returned and what
    SSL_get_error reports for that return), given as an argument. */
module TLS {
  import opened Common

  /** What SSL_get_error reports after an SSL call. */
  datatype SslErrorCode =
    | SslErrorNone
    | SslErrorZeroReturn
    | SslErrorWantRead
    | SslErrorWantWrite
    | SslErrorSyscall
    | SslErrorOther(code: int)   // SSL_ERROR_SSL and every other code

  /** The Python exception left set when a wrapper returns NULL. */
  datatype PyError =
    | TLSWantRead
    | TLSWantWrite
    | TLSClosed
    | TLSErrorFromQueue          // mm_SSL_ERR: a TLSError built from OpenSSL's error queue
    | TLSErrorMessage(msg: string)
    | MemoryError

  /** Return codes of tls_error. */
  const NO_ERROR: int := 0
  const ERROR: int := 1
  const ZERO_RETURN: int := -1

  /** Flag bits accepted by tls_error. */
  const IGNORE_ZERO_RETURN: nat := 1
  const IGNORE_SYSCALL: nat := 2

  /** flags & bit, for a single-bit mask. */
  predicate HasFlag(flags: nat, bit: nat)
    requires bit == IGNORE_ZERO_RETURN || bit == IGNORE_SYSCALL
  {
    (flags / bit) % 2 == 1
  }

  /** The outcome of tls_error: its return code and the Python error it set. */
  datatype Classification = Classification(code: int, raised: Option<PyError>)

  /** tls_error: classify what SSL_get_error reported. */
  function TlsError(err: SslErrorCode, flags: nat): (c: Classification)
    ensures c.code == NO_ERROR || c.code == ERROR || c.code == ZERO_RETURN
    // NO_ERROR exactly for "no error" and for a syscall error the caller ignores
    ensures c.code == NO_ERROR <==>
              err == SslErrorNone || (err == SslErrorSyscall && HasFlag(flags, IGNORE_SYSCALL))
    ensures c.code == ZERO_RETURN <==> err == SslErrorZeroReturn
    // an ERROR always leaves a Python exception set, NO_ERROR never does
    ensures c.code == ERROR ==> c.raised.Some?
    ensures c.code == NO_ERROR ==> c.raised == None
    // a clean close raises only when the caller did not ask to ignore it
    ensures c.code == ZERO_RETURN ==>
              (c.raised == None <==> HasFlag(flags, IGNORE_ZERO_RETURN))
    // would-block and closed conditions raise their own exceptions
    ensures err == SslErrorWantRead ==> c.raised == Some(TLSWantRead)
    ensures err == SslErrorWantWrite ==> c.raised == Some(TLSWantWrite)
    ensures err == SslErrorSyscall && !HasFlag(flags, IGNORE_SYSCALL) ==> c.raised == Some(TLSClosed)
  {
    match err
    case SslErrorNone => Classification(NO_ERROR, None)
    case SslErrorZeroReturn =>
      if HasFlag(flags, IGNORE_ZERO_RETURN) then Classification(ZERO_RETURN, None)
      else Classification(ZERO_RETURN, Some(TLSErrorFromQueue))
    case SslErrorWantRead => Classification(ERROR, Some(TLSWantRead))
    case SslErrorWantWrite => Classification(ERROR, Some(TLSWantWrite))
    case SslErrorSyscall =>
      if HasFlag(flags, IGNORE_SYSCALL) then Classification(NO_ERROR, None)
      else Classification(ERROR, Some(TLSClosed))
    case SslErrorOther(_) => Classification(ERROR, Some(TLSErrorFromQueue))
  }

  /** What a wrapper hands back to Python: a value, or NULL with the
      exception that is set at that moment (None when nothing is set). */
  datatype PyValue = PyNone | PyInt(i: int) | PyBytes(bytes: seq<byte>)
  datatype PyResult<+K> = Returned(value: PyValue) | ReturnedKey(key: K) | Failed(raised: Option<PyError>)

  /** tlssock.read(n): 'r' is SSL_read's return, 'filled' the buffer it
      wrote into, 'err' SSL_get_error's report for r. */
  function Read(n: int, r: int, filled: seq<byte>, err: SslErrorCode): (res: PyResult<()>)
    requires n >= 0 ==> |filled| == n
    requires r > 0 ==> r <= n
    // a negative size cannot be allocated
    ensures n < 0 ==> res == Failed(Some(MemoryError))
    // a successful read hands back exactly the r bytes read
    ensures n >= 0 && r > 0 ==> res == Returned(PyBytes(filled[..r])) && |res.value.bytes| == r
    // otherwise: None on NO_ERROR, the integer 0 on a clean close, failure on ERROR
    ensures n >= 0 && r <= 0 ==>
              (res == Returned(PyNone) <==> TlsError(err, IGNORE_ZERO_RETURN).code == NO_ERROR)
    ensures n >= 0 && r <= 0 ==>
              (res == Returned(PyInt(0)) <==> err == SslErrorZeroReturn)
    ensures n >= 0 && r <= 0 && TlsError(err, IGNORE_ZERO_RETURN).code == ERROR ==>
              res.Failed? && res.raised.Some?
  {
    if n < 0 then Failed(Some(MemoryError))
    else if r > 0 then Returned(PyBytes(filled[..r]))
    else
      var c := TlsError(err, IGNORE_ZERO_RETURN);
      if c.code == NO_ERROR then Returned(PyNone)
      else if c.code == ZERO_RETURN then Returned(PyInt(0))
      else Failed(c.raised)
  }

  /** tlssock.write(s): 'r' is SSL_write's return. */
  function Write(r: int, err: SslErrorCode): (res: PyResult<()>)
    ensures TlsError(err, IGNORE_ZERO_RETURN).code == NO_ERROR ==> res == Returned(PyInt(r))
    ensures err == SslErrorZeroReturn ==> res == Returned(PyInt(0))
    ensures res.Failed? <==> TlsError(err, IGNORE_ZERO_RETURN).code == ERROR
    ensures res.Failed? ==> res.raised.Some?
  {
    var c := TlsError(err, IGNORE_ZERO_RETURN);
    if c.code == NO_ERROR then Returned(PyInt(r))
    else if c.code == ZERO_RETURN then Returned(PyInt(0))
    else Failed(c.raised)
  }

  /** tlssock.shutdown(): 'r' is SSL_shutdown's return. */
  function Shutdown(r: int, err: SslErrorCode): (res: PyResult<()>)
    // a completed shutdown is reported before any error check
    ensures r == 1 ==> res == Returned(PyInt(1))
    // any non-zero classification (ERROR or ZERO_RETURN) fails
    ensures r != 1 ==> (res.Failed? <==> TlsError(err, IGNORE_SYSCALL).code != NO_ERROR)
    ensures r != 1 && TlsError(err, IGNORE_SYSCALL).code == NO_ERROR ==>
              res == (if r == 0 then Returned(PyInt(0)) else Returned(PyNone))
    ensures res.Failed? ==> res.raised.Some?
  {
    if r == 1 then Returned(PyInt(1))
    else
      var c := TlsError(err, IGNORE_SYSCALL);
      if c.code != NO_ERROR then Failed(c.raised)
      else if r == 0 then Returned(PyInt(0))
      else Returned(PyNone)
  }

  /** tlssock.accept(): only a NO_ERROR classification succeeds. */
  function Accept(err: SslErrorCode): (res: PyResult<()>)
    ensures res == Returned(PyNone) <==> TlsError(err, 0).code == NO_ERROR
    ensures res != Returned(PyNone) ==> res.Failed? && res.raised.Some?
    // a clean close (ZERO_RETURN, which is -1 and so non-zero) is a failure
    ensures err == SslErrorZeroReturn ==> res == Failed(Some(TLSErrorFromQueue))
  {
    var c := TlsError(err, 0);
    if c.code != NO_ERROR then Failed(c.raised) else Returned(PyNone)
  }

  /** tlssock.connect(): every r <= 0 fails, whatever the classification. */
  function Connect(r: int, err: SslErrorCode): (res: PyResult<()>)
    ensures res == Returned(PyNone) <==> r > 0
    ensures r <= 0 ==> res == Failed(TlsError(err, 0).raised)
  {
    if r <= 0 then Failed(TlsError(err, 0).raised) else Returned(PyNone)
  }

  /** tlssock.do_handshake() as written: only r == 0 is treated as failure. */
  function DoHandshakeAsWritten(r: int, err: SslErrorCode): (res: PyResult<()>)
    ensures res.Failed? <==> r == 0
  {
    if r == 0 then Failed(TlsError(err, 0).raised) else Returned(PyNone)
  }

  /** The would-block report that do_handshake documents is lost: SSL
      returns -1 with SSL_ERROR_WANT_READ and the wrapper reports success. */
  lemma DoHandshakeAsWrittenLosesWantRead()
    ensures DoHandshakeAsWritten(-1, SslErrorWantRead) == Returned(PyNone)
    ensures DoHandshakeAsWritten(-1, SslErrorWantWrite) == Returned(PyNone)
  {
  }

  /** tlssock.do_handshake() as its documentation describes it: every
      r <= 0 is classified, so would-block conditions raise. */
  function DoHandshake(r: int, err: SslErrorCode): (res: PyResult<()>)
    ensures res == Returned(PyNone) <==> r > 0
    ensures r <= 0 && err == SslErrorWantRead ==> res == Failed(Some(TLSWantRead))
    ensures r <= 0 && err == SslErrorWantWrite ==> res == Failed(Some(TLSWantWrite))
  {
    if r <= 0 then Failed(TlsError(err, 0).raised) else Returned(PyNone)
  }

  /** X509_cmp_time: -1 when the certificate time is earlier than or equal
      to 'now', 1 when it is later, 0 when the time field cannot be read
      (None). */
  function CmpTime(t: Option<int>, now: int): (c: int)
  {
    match t
    case None => 0
    case Some(v) => if v <= now then -1 else 1
  }

  /** The validity window of a peer certificate. */
  datatype CertTimes = CertTimes(notBefore: Option<int>, notAfter: Option<int>)

  /** tlssock.check_cert_alive(): 'peer' is the peer certificate, if any. */
  function CheckCertAlive(peer: Option<CertTimes>, now: int): (res: PyResult<()>)
    ensures peer == None ==> res == Failed(Some(TLSErrorFromQueue))
    ensures peer.Some? && peer.value.notBefore.Some? && now < peer.value.notBefore.value ==>
              res == Failed(Some(TLSErrorMessage("Certificate is not yet valid")))
    ensures peer.Some? && peer.value.notAfter.Some? && peer.value.notAfter.value <= now &&
            !(peer.value.notBefore.Some? && now < peer.value.notBefore.value) ==>
              res == Failed(Some(TLSErrorMessage("Certificate has expired")))
    // a readable window that contains 'now' is accepted
    ensures peer.Some? && peer.value.notBefore.Some? && peer.value.notAfter.Some? ==>
              (res == Returned(PyNone) <==>
                 peer.value.notBefore.value <= now < peer.value.notAfter.value)
  {
    match peer
    case None => Failed(Some(TLSErrorFromQueue))
    case Some(cert) =>
      if CmpTime(cert.notBefore, now) > 0 then
        Failed(Some(TLSErrorMessage("Certificate is not yet valid")))
      else if CmpTime(cert.notAfter, now) < 0 then
        Failed(Some(TLSErrorMessage("Certificate has expired")))
      else Returned(PyNone)
  }

  /** The loop of verify_cert_and_get_identity_pk over the two chain
      entries: the first that differs from the peer certificate, or the
      last one examined when neither differs. */
  function IdentityCert<C(==)>(chain: seq<C>, peer: C): (id: C)
    requires |chain| == 2
    ensures id == chain[0] || id == chain[1]
    ensures chain[0] != peer ==> id == chain[0]
    ensures chain[0] == peer ==> id == chain[1]
    ensures id == peer ==> chain[0] == peer && chain[1] == peer
  {
    if chain[0] != peer then chain[0] else chain[1]
  }

  /** tlssock.verify_cert_and_get_identity_pk().  'pubkey' extracts a
      certificate's public key, 'verify' checks that a certificate is signed
      by a key (X509_verify, > 0 on success), 'asRsa' extracts the RSA key. */
  function VerifyCertAndGetIdentityPk<C(==), K, R>(
    chain: Option<seq<C>>, peer: Option<C>,
    pubkey: C -> Option<K>, verify: (C, K) -> int, asRsa: K -> Option<R>): (res: PyResult<R>)
    // success needs a 2-certificate chain, a peer certificate signed by the
    // identity certificate's key, and that key being RSA
    ensures res.ReturnedKey? <==>
              chain.Some? && peer.Some? && |chain.value| == 2 &&
              pubkey(IdentityCert(chain.value, peer.value)).Some? &&
              verify(peer.value, pubkey(IdentityCert(chain.value, peer.value)).value) > 0 &&
              asRsa(pubkey(IdentityCert(chain.value, peer.value)).value).Some?
    ensures res.ReturnedKey? ==>
              res.key == asRsa(pubkey(IdentityCert(chain.value, peer.value)).value).value
    ensures chain.Some? && peer.Some? && |chain.value| != 2 ==>
              res == Failed(Some(TLSErrorMessage("Wrong number of certificates in peer chain.")))
    ensures !res.ReturnedKey? ==> res.Failed? && res.raised.Some?
  {
    if chain.None? || peer.None? then Failed(Some(TLSErrorFromQueue))
    else if |chain.value| != 2 then
      Failed(Some(TLSErrorMessage("Wrong number of certificates in peer chain.")))
    else
      var id := IdentityCert(chain.value, peer.value);
      match pubkey(id)
      case None => Failed(Some(TLSErrorFromQueue))
      case Some(k) =>
        if verify(peer.value, k) <= 0 then Failed(Some(TLSErrorFromQueue))
        else
          match asRsa(k)
          case None => Failed(Some(TLSErrorFromQueue))
          case Some(rsa) => ReturnedKey(rsa)
  }
}
