/** What the clients need of the WebSocket protocol (RFC 6455): the opcodes,
    frames as values, the opening-handshake key and its expected accept
    value, and a TCP connection seen as the chunks `recv` returns and the
    frames `sendall` writes. Frame encoding, masking and SHA-1 are not part
    of this model: SHA-1 is a parameter and frames stay values. */
module WebSocket {
  import opened Base
  import Utf8
  import Base64

  /** The opcodes of section 5.2 of RFC 6455. */
  datatype Opcode = Cont | Text | Binary | Close | Ping | Pong

  datatype Frame = Frame(opcode: Opcode, data: Bytes)

  /** The GUID of section 1.3 of RFC 6455. */
  const Guid: string := "258EAFA5-E914-47DA-95CA-C5AB0DC85B11"

  /** `MAGIC_VAL`: the GUID as the bytes literal the library writes. */
  const MagicVal: Bytes := [
      0x32, 0x35, 0x38, 0x45, 0x41, 0x46, 0x41, 0x35, 0x2D, 0x45, 0x39, 0x31,
      0x34, 0x2D, 0x34, 0x37, 0x44, 0x41, 0x2D, 0x39, 0x35, 0x43, 0x41, 0x2D,
      0x43, 0x35, 0x41, 0x42, 0x30, 0x44, 0x43, 0x38, 0x35, 0x42, 0x31, 0x31]

  /** The bytes literal is the UTF-8 encoding of the GUID. */
  lemma MagicValIsGuid()
    ensures MagicVal == Utf8.Encode(Guid)
  {
    EncodesTo(Guid);
  }

  lemma EncodesTo(g: string)
    requires g == Guid
    ensures Utf8.Encode(g) == MagicVal
  {
    GuidCodes();
    Utf8.EncodeAscii(g);
  }

  /** The GUID's characters are ASCII and their codes are the literal's bytes. */
  lemma GuidCodes()
    ensures |Guid| == |MagicVal| && Utf8.AllAscii(Guid)
    ensures forall k :: 0 <= k < |Guid| ==> Guid[k] as int == MagicVal[k]
  {
  }

  /** A SHA-1 digest has 20 bytes. */
  type Digest = b: Bytes | |b| == 20 witness seq(20, i => 0)

  /** `os.urandom(16)` always gives 16 bytes. */
  type Nonce = b: Bytes | |b| == 16 witness seq(16, i => 0)

  /** `b64encode(os.urandom(16))` read as text: the `Sec-WebSocket-Key`
      value of section 4.1 of RFC 6455, always 24 base64 characters. */
  function KeyText(nonce: Nonce): (k: string)
    ensures |k| == 24
    ensures forall i :: 0 <= i < |k| ==> Base64.IsEncodingChar(k[i])
  {
    Base64.EncodeLength(nonce);
    Base64.EncodeAlphabet(nonce);
    Base64.Encode(nonce)
  }

  /** base64 of the SHA-1 digest of the key bytes followed by the GUID: the
      `Sec-WebSocket-Accept` value a server must send back (section 4.2.2
      of RFC 6455); 28 characters whatever the key. */
  function AcceptFor(key: Bytes, sha1: Bytes -> Digest): (a: string)
    ensures |a| == 28
  {
    var d := sha1(key + MagicVal);
    Base64.EncodeLength(d);
    Base64.Encode(d)
  }

  /** A connected TCP socket: the chunks the peer will still deliver, the
      frames written to it, and how often it has been closed. */
  class Connection {
    var inbox: seq<Bytes>
    var sent: seq<Frame>
    var closes: nat

    constructor (incoming: seq<Bytes>)
      ensures inbox == incoming && sent == [] && closes == 0
    {
      inbox := incoming;
      sent := [];
      closes := 0;
    }

    /** `recv`: the next chunk; `b''` once the peer has nothing more. */
    method Recv() returns (data: Bytes)
      modifies this
      ensures old(inbox) == [] ==> data == [] && inbox == []
      ensures old(inbox) != [] ==> data == old(inbox)[0] && inbox == old(inbox)[1..]
      ensures sent == old(sent) && closes == old(closes)
    {
      if inbox == [] {
        data := [];
      } else {
        data := inbox[0];
        inbox := inbox[1..];
      }
    }

    /** `sendall`: the frame is written, unless the socket was closed, in
        which case Python raises `OSError` (`ok` is false). */
    method Send(f: Frame) returns (ok: bool)
      modifies this
      ensures ok <==> old(closes) == 0
      ensures sent == if ok then old(sent) + [f] else old(sent)
      ensures inbox == old(inbox) && closes == old(closes)
    {
      ok := closes == 0;
      if ok {
        sent := sent + [f];
      }
    }

    /** `close`. */
    method Close()
      modifies this
      ensures closes == old(closes) + 1
      ensures inbox == old(inbox) && sent == old(sent)
    {
      closes := closes + 1;
    }
  }
}
