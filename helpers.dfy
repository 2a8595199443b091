// The SAML request encoder of internal/utils/helpers.go: raw deflate into an
// in-memory buffer, then standard base64 of the buffer's bytes.
module Utils {
  import opened Wrappers
  import opened Errors
  import opened Text
  import Base64

  /** flate.HuffmanOnly and flate.BestCompression: the range of levels flate.NewWriter accepts. */
  const HuffmanOnly: int := -2
  const BestCompression: int := 9
  /** flate.DefaultCompression, the level the encoder asks for. */
  const DefaultCompression: int := -1

  /** The error flate.NewWriter reports for `level`, if any. */
  function NewWriterError(level: int): (err: Option<string>)
    ensures err.None? <==> HuffmanOnly <= level <= BestCompression
  {
    if level < HuffmanOnly || level > BestCompression then Some("flate: invalid compression level")
    else None
  }

  /**
   * The compressor, whose algorithm is not part of this model: `write` is what
   * the flate writer emits into its destination while consuming the input (or
   * the error it reports), `close` what it emits when flushed and closed.
   */
  datatype Deflater = Deflater(
    write: string -> Result<seq<byte>, string>,
    close: string -> Result<seq<byte>, string>)

  /** bytes.Buffer: a growable byte sequence that every write appends to. */
  class Buffer {
    var contents: seq<byte>

    constructor ()
      ensures contents == []
    {
      contents := [];
    }

    method Write(p: seq<byte>)
      modifies this
      ensures contents == old(contents) + p
    {
      contents := contents + p;
    }
  }

  /**
   * The raw deflate stream of `input`: the bytes emitted by the write and
   * then by the close, or the first error on the way.
   */
  function Deflated(input: string, d: Deflater): (r: Result<seq<byte>, Error>)
    ensures r.Success? <==> d.write(input).Success? && d.close(input).Success?
    ensures r.Success? ==> HasPrefix(r.value, d.write(input).value)
  {
    match NewWriterError(DefaultCompression)
    case Some(msg) => Failure(Collaborator(msg))
    case None =>
      match d.write(input)
      case Failure(msg) => Failure(Collaborator(msg))
      case Success(body) =>
        match d.close(input)
        case Failure(msg) => Failure(Collaborator(msg))
        case Success(tail) => Success(body + tail)
  }

  /**
   * What the encoder returns: the base64 text of the deflate stream, or the
   * compressor's error. A success decodes back to exactly the deflate stream.
   * It is the reference for the method RawDeflateBase64Encode.
   */
  function DeflateBase64(input: string, d: Deflater): (r: Result<seq<byte>, Error>)
    ensures r.Success? <==> Deflated(input, d).Success?
    ensures r.Failure? ==> r.error == Deflated(input, d).error
    ensures r.Success? ==> Base64.Decode(r.value) == Some(Deflated(input, d).value)
  {
    match Deflated(input, d)
    case Failure(e) => Failure(e)
    case Success(stream) =>
      Base64.DecodeEncode(stream);
      Success(Base64.Encode(stream))
  }

  /** The level the encoder asks for is always accepted: creating the writer never fails. */
  lemma DefaultLevelAccepted()
    ensures NewWriterError(DefaultCompression).None?
  {
  }

  /** The encoder fails exactly when the write or the close reports an error, with that error. */
  lemma EncoderFailures(input: string, d: Deflater)
    ensures DeflateBase64(input, d).Failure? <==> d.write(input).Failure? || d.close(input).Failure?
    ensures d.write(input).Failure? ==> DeflateBase64(input, d) == Failure(Collaborator(d.write(input).error))
    ensures d.write(input).Success? && d.close(input).Failure? ==>
      DeflateBase64(input, d) == Failure(Collaborator(d.close(input).error))
  {
    DefaultLevelAccepted();
  }

  /**
   * A successful encoding is padded standard base64 of the whole deflate
   * stream: four symbols per started group of three bytes, '=' only at the end.
   */
  lemma EncodedShape(input: string, d: Deflater)
    requires DeflateBase64(input, d).Success?
    ensures var s := DeflateBase64(input, d).value;
      |s| == 4 * ((|Deflated(input, d).value| + 2) / 3) &&
      forall i :: 0 <= i < |s| ==> Base64.IsSymbol(s[i]) || (s[i] == Base64.Pad && |s| - 2 <= i)
  {
  }

  /**
   * The encoder itself: the flate writer fills a fresh buffer, and the
   * buffer's bytes are base64-encoded once the writer is closed.
   */
  method RawDeflateBase64Encode(input: string, d: Deflater) returns (r: Result<seq<byte>, Error>)
    ensures r == DeflateBase64(input, d)
  {
    var deflated := new Buffer();
    // Creating the writer at the default level cannot fail, so its error check never fires.
    DefaultLevelAccepted();
    var written := d.write(input);
    if written.Failure? {
      return Failure(Collaborator(written.error));
    }
    deflated.Write(written.value);
    var closed := d.close(input);
    if closed.Failure? {
      return Failure(Collaborator(closed.error));
    }
    deflated.Write(closed.value);
    assert deflated.contents == Deflated(input, d).value;
    r := Success(Base64.Encode(deflated.contents));
  }
}
