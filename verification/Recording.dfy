/** The recorded exchange, and the libraries the comparison and the redaction call. */
module Recording {
  import opened Strings
  import opened Json
  import JsonText
  import UniqueNames

  newtype byte = x: int | 0 <= x < 256

  type Bytes = seq<byte>

  type Header = map<string, seq<string>>

  datatype Request = Request(headers: Header, body: Bytes, observedSize: int, truncated: bool, complete: bool)

  datatype Response = Response(statusCode: int, headers: Header, body: Bytes, observedSize: int, truncated: bool, complete: bool)

  /** sanitize.RedactedValue, as text and as the bytes of a withheld body. */
  const MARKER := "<REDACTED>"
  const WITHHELD: Bytes := [60, 82, 69, 68, 65, 67, 84, 69, 68, 62]

  predicate IsRedacted(value: string) {
    value == MARKER
  }

  type Form = map<string, seq<string>>

  /** What stands for a query that could not be redacted field by field. */
  const WITHHELD_QUERY: Form := map["redacted" := [MARKER]]

  /** The bytes of a withheld body spell the marker. */
  lemma WithheldIsMarker(i: nat)
    ensures |WITHHELD| == |MARKER|
    ensures i < |WITHHELD| ==> WITHHELD[i] as int == MARKER[i] as int
  {
  }

  /** Two forms with the same keys, each as often. */
  predicate SameShape(a: Form, b: Form) {
    a.Keys == b.Keys && forall k :: k in a && k in b ==> |a[k]| == |b[k]|
  }

  /** No object of a document that the text can be read as repeats a name. */
  ghost predicate NamesAreUnique(text: string) {
    forall d :: JsonText.Reads(d, text) ==> UniqueNames.UniqueDoc(d)
  }

  /**
    encoding/json, net/url, mime and crypto/sha256, as functions.
    `decodeJson` is json.Valid followed by a decode with UseNumber, and `tokens` what a json.Decoder reads from such a
    body; `strictJson` is validJSON, the check that Sanitize.ValidJson computes; `encodeJson` stands for any text the
    rewritten tree is marshalled to; `queryOf` is url.Parse and the raw query of its result.
   */
  datatype Library = Library(
    jsonValid: string -> bool,
    decodeJson: Bytes -> Option<Json>,
    tokens: Bytes -> seq<UniqueNames.Token>,
    strictJson: Bytes -> bool,
    encodeJson: Json -> Bytes,
    queryOf: string -> Option<string>,
    parseQuery: string -> Option<Form>,
    encodeQuery: Form -> string,
    text: Bytes -> string,
    bytes: string -> Bytes,
    validUtf8: Bytes -> bool,
    mediaType: string -> (string, bool),
    sha256: Bytes -> Bytes)
  {
    /** What the model relies on. */
    ghost predicate Faithful() {
      && (forall s :: text(bytes(s)) == s && validUtf8(bytes(s)))
      && ReadsJson()
      && (forall b, j :: decodeJson(b) == Some(j) ==> Fits(j, JsonText.MAX_NESTING))
      && (forall j :: Fits(j, JsonText.MAX_NESTING) ==> decodeJson(encodeJson(j)) == Some(j) && strictJson(encodeJson(j)))
      && decodeJson(WITHHELD) == None
      && parseQuery(encodeQuery(WITHHELD_QUERY)) == Some(WITHHELD_QUERY)
      && (forall raw, f :: parseQuery(raw).Some? && SameShape(parseQuery(raw).value, f) ==> parseQuery(encodeQuery(f)) == Some(f))
    }

    /** The checks decide the grammar, and decoding gives a text the meaning the grammar gives it. */
    ghost predicate ReadsJson() {
      && (forall s :: jsonValid(s) <==> JsonText.Valid(s))
      && (forall b :: validUtf8(b) ==> (decodeJson(b).Some? <==> JsonText.Valid(text(b))))
      && (forall b, d :: validUtf8(b) && JsonText.Reads(d, text(b)) ==>
            decodeJson(b) == Some(JsonText.Denote(d)) && tokens(b) == UniqueNames.DocTokens(d))
      && (forall b :: strictJson(b) <==> validUtf8(b) && decodeJson(b).Some? && NamesAreUnique(text(b)))
    }
  }

  /** Every number token is a JSON number, and objects and arrays nest this deep at most, as in anything a decoder produced. */
  ghost predicate Fits(j: Json, depth: nat) {
    match j
    case Num(token) => JsonText.IsNumber(token)
    case Arr(items) => depth > 0 && forall i :: 0 <= i < |items| ==> Fits(items[i], depth - 1)
    case Obj(fields) => depth > 0 && forall k :: k in fields.Keys ==> Fits(fields[k], depth - 1)
    case _ => true
  }

  /** A body is decoded to what the grammar says its text denotes. */
  lemma DecodesTo(lib: Library, body: Bytes, d: JsonText.Doc)
    requires lib.ReadsJson() && lib.validUtf8(body) && JsonText.Reads(d, lib.text(body))
    ensures lib.decodeJson(body) == Some(JsonText.Denote(d))
  {
  }
}
