/**
 * The message record the mail provider returns and the recursive MIME tree in its
 * `payload`, together with the two fixture builders of backend/tests/testEmail.py that
 * produce such records: `_create_mock_message` and `_create_mock_attachment_part`.
 */
module Mime {
  import opened Wrappers
  import Utf8
  import Base64Url

  /** One `{'name': ..., 'value': ...}` entry of a header list. */
  datatype Header = Header(name: string, value: string)

  /** A part's `body`: its size, and inline base64url `data` or an `attachmentId` (or neither). */
  datatype Body = Body(size: nat, data: Option<string>, attachmentId: Option<string>)

  /** The empty body `{}`. */
  const EmptyBody := Body(0, None, None)

  /**
   * A node of the MIME tree: a leaf carrying a body, or a container whose only content is
   * its parts. A payload dictionary with a non-empty `parts` list is a container.
   */
  datatype MimeNode =
    | Leaf(mimeType: string, filename: Option<string>, partId: Option<string>, body: Body)
    | Container(mimeType: string, parts: seq<MimeNode>)

  /** The root `payload`: the header list (present only at the root) and the tree. */
  datatype Payload = Payload(headers: seq<Header>, root: MimeNode)

  /** A full message as `users().messages().get()` returns it. */
  datatype RawMessage = RawMessage(
    id: string,
    threadId: string,
    snippet: string,
    payload: Payload,
    labelIds: seq<string>,
    historyId: string,
    internalDate: string,
    sizeEstimate: nat)

  /** `s.startswith(p)`. */
  predicate StartsWith(s: string, p: string) {
    |p| <= |s| && s[..|p|] == p
  }

  /** `base64.urlsafe_b64encode(s.encode('utf-8')).decode('utf-8')`: text as a `data` field. */
  function EncodeText(s: string): string {
    Base64Url.Encode(Utf8.Encode(s))
  }

  /** The inverse of EncodeText: `base64.urlsafe_b64decode(d).decode('utf-8')`. */
  function DecodeText(d: string): Option<string> {
    match Base64Url.Decode(d)
    case None => None
    case Some(bytes) => Utf8.Decode(bytes)
  }

  /** Every text survives the trip through a `data` field. */
  lemma DecodeEncodeText(s: string)
    ensures DecodeText(EncodeText(s)) == Some(s)
  {
    Base64Url.DecodeEncode(Utf8.Encode(s));
    Utf8.DecodeEncode(s);
  }

  /** A body holding `text` inline, as the fixtures write it: size is Python's `len(text)`. */
  function InlineBody(text: string): (b: Body)
    ensures b.attachmentId == None && b.size == |text|
    ensures b.data.Some? && DecodeText(b.data.value) == Some(text)
  {
    DecodeEncodeText(text);
    Body(|text|, Some(EncodeText(text)), None)
  }

  /** The date every fixture message carries. */
  const FixtureDate := "Tue, 15 Apr 2025 10:00:00 +0000"

  /** The five headers `_create_mock_message` always writes, in order. */
  function FixtureHeaders(msgId: string, subject: string, fromAddr: string, toAddr: string): seq<Header> {
    [Header("Subject", subject), Header("From", fromAddr), Header("To", toAddr),
     Header("Date", FixtureDate), Header("Message-ID", "<" + msgId + "@mail.gmail.com>")]
  }

  /**
   * The tree `_create_mock_message` puts under `payload`, case by case: explicit parts make a
   * container; otherwise a non-empty text/plain body is held inline, and a non-empty body of a
   * multipart type becomes a single text/plain child; anything else is a leaf with body `{}`.
   */
  function MockRoot(body: Option<string>, mimeType: string, parts: seq<MimeNode>): (n: MimeNode)
    ensures n.mimeType == mimeType
    ensures parts != [] ==> n == Container(mimeType, parts)
    ensures parts == [] && body.Some? && body.value != "" && mimeType == "text/plain" ==>
              && n.Leaf? && n.filename == None && n.partId == None && n.body == InlineBody(body.value)
              && n.body.data.Some? && DecodeText(n.body.data.value) == Some(body.value)
    ensures parts == [] && body.Some? && body.value != "" && mimeType != "text/plain"
            && StartsWith(mimeType, "multipart/") ==>
              n == Container(mimeType, [Leaf("text/plain", None, None, InlineBody(body.value))])
    ensures parts == [] && (body.None? || body.value == ""
                            || (mimeType != "text/plain" && !StartsWith(mimeType, "multipart/"))) ==>
              n == Leaf(mimeType, None, None, EmptyBody)
  {
    var hasBody := body.Some? && body.value != "";
    if parts != [] then Container(mimeType, parts)
    else if hasBody && mimeType == "text/plain" then Leaf(mimeType, None, None, InlineBody(body.value))
    else if hasBody && StartsWith(mimeType, "multipart/") then
      Container(mimeType, [Leaf("text/plain", None, None, InlineBody(body.value))])
    else Leaf(mimeType, None, None, EmptyBody)
  }

  /** The record `_create_mock_message` returns. */
  function MockMessage(msgId: string, threadId: string, subject: string, fromAddr: string,
                       toAddr: string, snippet: string, body: Option<string>, mimeType: string,
                       parts: seq<MimeNode>, headersExtra: seq<Header>): (m: RawMessage)
    ensures m.id == msgId && m.threadId == threadId && m.snippet == snippet
    ensures m.payload.root.mimeType == mimeType
    ensures |m.payload.headers| == 5 + |headersExtra|
    ensures m.payload.headers[..5] == FixtureHeaders(msgId, subject, fromAddr, toAddr)
    ensures m.payload.headers[5..] == headersExtra
    ensures m.payload.root == MockRoot(body, mimeType, parts)
  {
    RawMessage(msgId, threadId, snippet,
               Payload(FixtureHeaders(msgId, subject, fromAddr, toAddr) + headersExtra,
                       MockRoot(body, mimeType, parts)),
               ["INBOX", "UNREAD"], "12345", "1618486800000", 1024)
  }

  /** The mutable `payload` dictionary that `_create_mock_message` fills in step by step. */
  class PayloadDict {
    var mimeType: string
    var headers: seq<Header>
    var body: Body
    var parts: seq<MimeNode>

    constructor (mimeType: string, headers: seq<Header>, parts: seq<MimeNode>)
      ensures this.mimeType == mimeType && this.headers == headers
      ensures this.body == EmptyBody && this.parts == parts
    {
      this.mimeType := mimeType;
      this.headers := headers;
      this.body := EmptyBody;
      this.parts := parts;
    }

    /** The dictionary read as a payload: a non-empty `parts` list makes the root a container. */
    function ToPayload(): (p: Payload)
      reads this
      ensures p.headers == headers && p.root.mimeType == mimeType
      ensures p.root.Container? <==> parts != []
      ensures p.root.Container? ==> p.root.parts == parts
      ensures p.root.Leaf? ==> p.root.body == body && p.root.filename == None && p.root.partId == None
    {
      Payload(headers, if parts != [] then Container(mimeType, parts) else Leaf(mimeType, None, None, body))
    }
  }

  /** `_create_mock_message`: grows the header list, then overwrites `body` or `parts`. */
  method CreateMockMessage(msgId: string, threadId: string, subject: string, fromAddr: string,
                           toAddr: string, snippet: string, body: Option<string>, mimeType: string,
                           parts: seq<MimeNode>, headersExtra: seq<Header>) returns (m: RawMessage)
    ensures m == MockMessage(msgId, threadId, subject, fromAddr, toAddr, snippet, body, mimeType,
                             parts, headersExtra)
  {
    var headers := FixtureHeaders(msgId, subject, fromAddr, toAddr);
    if headersExtra != [] {
      headers := headers + headersExtra;
    }
    var payload := new PayloadDict(mimeType, headers, parts);
    var hasBody := body.Some? && body.value != "";
    if hasBody && mimeType == "text/plain" {
      payload.body := InlineBody(body.value);
    } else if hasBody && StartsWith(mimeType, "multipart/") {
      if parts == [] {
        payload.parts := [Leaf("text/plain", None, None, InlineBody(body.value))];
      }
    }
    m := RawMessage(msgId, threadId, snippet, payload.ToPayload(),
                    ["INBOX", "UNREAD"], "12345", "1618486800000", 1024);
  }

  /** `_create_mock_attachment_part`: a leaf that refers to its bytes by `attachmentId`. */
  function MockAttachmentPart(partId: string, filename: string, mimeType: string,
                              attachmentId: string): (n: MimeNode)
    ensures n.Leaf? && n.partId == Some(partId) && n.filename == Some(filename)
    ensures n.mimeType == mimeType
    ensures n.body.attachmentId == Some(attachmentId) && n.body.data == None
    ensures n.body.size == 1000
  {
    Leaf(mimeType, Some(filename), Some(partId), Body(1000, None, Some(attachmentId)))
  }
}
