/**
 * The outcomes backend/tests/testEmail.py asserts, stated over the model: first in general
 * (for every input the fixture builders accept), then for the tests' own fixture values.
 */
module Scenarios {
  import opened Wrappers
  import opened Mime
  import opened Parser
  import opened Composer

  // ---------------------------------------------------------------- fixtures meet the parser

  /** The header fields of any fixture message are read from its root header list. */
  lemma MockHeadersParse(msgId: string, threadId: string, subject: string, fromAddr: string,
                         toAddr: string, snippet: string, body: Option<string>, mimeType: string,
                         parts: seq<MimeNode>, headersExtra: seq<Header>)
    ensures var e := ParseHeaders(MockMessage(msgId, threadId, subject, fromAddr, toAddr, snippet,
                                              body, mimeType, parts, headersExtra));
            && e.id == msgId && e.threadId == threadId && e.snippet == snippet
            && e.subject == Some(subject) && e.from == Some(fromAddr) && e.to == Some(toAddr)
            && e.date == Some(FixtureDate) && e.mimeType == mimeType && e.body == None
  {
    var m := MockMessage(msgId, threadId, subject, fromAddr, toAddr, snippet, body, mimeType,
                         parts, headersExtra);
    var hs := m.payload.headers;
    assert hs[0] == hs[..5][0] && hs[1] == hs[..5][1] && hs[2] == hs[..5][2] && hs[3] == hs[..5][3];
    FixtureLookups(hs, subject, fromAddr, toAddr);
  }

  /** The lookups of the four fixed headers that lead a fixture header list. */
  lemma FixtureLookups(hs: seq<Header>, subject: string, fromAddr: string, toAddr: string)
    requires |hs| >= 4 && hs[0] == Header("Subject", subject) && hs[1] == Header("From", fromAddr)
    requires hs[2] == Header("To", toAddr) && hs[3] == Header("Date", FixtureDate)
    ensures HeaderValue(hs, "Subject") == Some(subject) && HeaderValue(hs, "From") == Some(fromAddr)
    ensures HeaderValue(hs, "To") == Some(toAddr) && HeaderValue(hs, "Date") == Some(FixtureDate)
  {
    assert |"Subject"| == 7 && |"From"| == 4 && |"To"| == 2 && |"Date"| == 4;
    assert "From"[0] != "Date"[0];
    LeadingLookups(hs, "Subject", "From", "To", "Date");
  }

  /** With four distinct names leading a header list, each lookup finds its own header. */
  lemma LeadingLookups(hs: seq<Header>, n0: string, n1: string, n2: string, n3: string)
    requires |hs| >= 4 && hs[0].name == n0 && hs[1].name == n1 && hs[2].name == n2 && hs[3].name == n3
    requires n0 != n1 && n0 != n2 && n0 != n3 && n1 != n2 && n1 != n3 && n2 != n3
    ensures HeaderValue(hs, n0) == Some(hs[0].value) && HeaderValue(hs, n1) == Some(hs[1].value)
    ensures HeaderValue(hs, n2) == Some(hs[2].value) && HeaderValue(hs, n3) == Some(hs[3].value)
  {
    HeaderValueAt(hs, n0, 0);
    HeaderValueAt(hs, n1, 1);
    HeaderValueAt(hs, n2, 2);
    HeaderValueAt(hs, n3, 3);
  }

  /**
   * A fixture message built with a non-empty body and no parts, of type text/plain or
   * multipart, parses (body requested) to exactly that body.
   */
  lemma MockBodyParses(msgId: string, threadId: string, subject: string, fromAddr: string,
                       toAddr: string, snippet: string, body: string, mimeType: string,
                       headersExtra: seq<Header>)
    requires body != ""
    requires mimeType == "text/plain" || StartsWith(mimeType, "multipart/")
    ensures var m := MockMessage(msgId, threadId, subject, fromAddr, toAddr, snippet, Some(body),
                                 mimeType, [], headersExtra);
            ParseMessage(m, true) == Some(ParseHeaders(m).(body := Some(body)))
  {
    var m := MockMessage(msgId, threadId, subject, fromAddr, toAddr, snippet, Some(body),
                         mimeType, [], headersExtra);
    var leaf := Leaf("text/plain", None, None, InlineBody(body));
    if mimeType != "text/plain" {
      assert m.payload.root == Container(mimeType, [leaf]);
      assert LeavesOf([leaf]) == [leaf];
    }
    assert Leaves(m.payload.root) == [leaf] || Leaves(m.payload.root) == [m.payload.root];
    BodyIsFirstPlainText(m, 0);
  }

  /** A fixture message built without a body or parts has no body to parse and no attachments. */
  lemma MockWithoutBody(msgId: string, threadId: string, subject: string, fromAddr: string,
                        toAddr: string, snippet: string, mimeType: string, headersExtra: seq<Header>)
    ensures var m := MockMessage(msgId, threadId, subject, fromAddr, toAddr, snippet, None,
                                 mimeType, [], headersExtra);
            GetEmailWithAttachments(Some(m)) == (Some(ParseHeaders(m)), map[])
  {
  }

  // ---------------------------------------------------------------- test_query_emails_*

  /** The two messages of test_query_emails_success, by id. */
  method QueryMailbox() returns (mailbox: map<string, RawMessage>)
    ensures mailbox.Keys == {"msg1", "msg2"}
    ensures mailbox["msg1"] == MockMessage("msg1", "thr1", "Subject 1", "sender1@example.com",
                                           "test@example.com", "Snippet 1", None, "text/plain", [], [])
    ensures mailbox["msg2"] == MockMessage("msg2", "thr2", "Subject 2", "sender2@example.com",
                                           "test@example.com", "Snippet 2", None, "text/plain", [], [])
  {
    var m1 := CreateMockMessage("msg1", "thr1", "Subject 1", "sender1@example.com",
                                "test@example.com", "Snippet 1", None, "text/plain", [], []);
    var m2 := CreateMockMessage("msg2", "thr2", "Subject 2", "sender2@example.com",
                                "test@example.com", "Snippet 2", None, "text/plain", [], []);
    mailbox := map["msg1" := m1, "msg2" := m2];
  }

  /** test_query_emails_success: one fetch per listed id, in order; headers parsed; no body. */
  method QuerySuccess() returns (emails: seq<ParsedEmail>, fetched: seq<string>)
    ensures fetched == ["msg1", "msg2"]
    ensures |emails| == 2
    ensures emails[0].id == "msg1" && emails[0].subject == Some("Subject 1")
    ensures emails[1].id == "msg2" && emails[1].subject == Some("Subject 2")
    ensures emails[0].body == None && emails[1].body == None
  {
    var mailbox := QueryMailbox();
    var refs := [MessageRef("msg1", "thr1"), MessageRef("msg2", "thr2")];
    assert refs[0].id in mailbox && refs[1].id in mailbox;
    assert forall i :: 0 <= i < |refs| ==> refs[i].id in mailbox;
    emails, fetched := QueryEmails(Listed(Some(refs)), mailbox);
    assert emails[0] == ParseHeaders(mailbox["msg1"]) && emails[1] == ParseHeaders(mailbox["msg2"]);
    MockHeadersParse("msg1", "thr1", "Subject 1", "sender1@example.com", "test@example.com",
                     "Snippet 1", None, "text/plain", [], []);
    MockHeadersParse("msg2", "thr2", "Subject 2", "sender2@example.com", "test@example.com",
                     "Snippet 2", None, "text/plain", [], []);
    IdsOfTwo(refs[0], refs[1]);
  }

  /** The ids of a two-entry listing, in order. */
  lemma IdsOfTwo(a: MessageRef, b: MessageRef)
    ensures Ids([a, b]) == [a.id, b.id]
  {
    assert Ids([a, b])[0] == a.id && Ids([a, b])[1] == b.id;
  }

  /** test_query_emails_no_messages and test_query_emails_api_error: no fetch, no result. */
  method QueryNothing(failed: bool, mailbox: map<string, RawMessage>)
    returns (emails: seq<ParsedEmail>, fetched: seq<string>)
    ensures emails == [] && fetched == []
  {
    emails, fetched := QueryEmails(if failed then ListFailed else Listed(None), mailbox);
  }

  // ---------------------------------------------------------------- test_get_email_by_id_*

  /** The message of test_get_email_by_id_with_attachments_success. */
  function AttachmentMessage(bodyContent: string): RawMessage {
    MockMessage("msg_attach", "thr_attach", "Email with Attachments", "sender@example.com",
                "test@example.com", "Snippet attach", Some(bodyContent), "multipart/mixed",
                [Leaf("text/plain", None, None, InlineBody(bodyContent)),
                 MockAttachmentPart("part1", "file1.txt", "text/plain", "attach1"),
                 MockAttachmentPart("part2", "image.jpg", "image/jpeg", "attach2")], [])
  }

  /** The leaves of AttachmentMessage, in document order. */
  function AttachmentLeafList(bodyContent: string): seq<MimeNode> {
    [Leaf("text/plain", None, None, InlineBody(bodyContent)),
     MockAttachmentPart("part1", "file1.txt", "text/plain", "attach1"),
     MockAttachmentPart("part2", "image.jpg", "image/jpeg", "attach2")]
  }

  /** AttachmentMessage is a flat container: its leaves are its parts. */
  lemma AttachmentLeaves3(bodyContent: string)
    ensures AttachmentMessage(bodyContent).payload.root == Container("multipart/mixed", AttachmentLeafList(bodyContent))
    ensures Leaves(AttachmentMessage(bodyContent).payload.root) == AttachmentLeafList(bodyContent)
  {
    var ls := AttachmentLeafList(bodyContent);
    assert LeavesOf(ls[2..]) == [ls[2]] by { assert ls[2..][1..] == []; }
    assert LeavesOf(ls[1..]) == [ls[1]] + LeavesOf(ls[2..]) by { assert ls[1..][1..] == ls[2..]; }
    assert LeavesOf(ls) == [ls[0]] + LeavesOf(ls[1..]);
  }

  /** The index of AttachmentMessage: keyed by the two partIds, one entry for each part. */
  lemma AttachmentIndexScenario(bodyContent: string)
    ensures var idx := Attachments(AttachmentMessage(bodyContent).payload.root);
            && idx.Keys == {"part1", "part2"}
            && |idx| == 2
            && idx["part1"] == AttachmentDescriptor("file1.txt", "text/plain", "attach1", 1000)
            && idx["part2"] == AttachmentDescriptor("image.jpg", "image/jpeg", "attach2", 1000)
  {
    var ls := AttachmentLeafList(bodyContent);
    AttachmentLeaves3(bodyContent);
    IndexOfThree(ls[0], ls[1], ls[2]);
    assert [ls[0], ls[1], ls[2]] == ls;
  }

  /** Indexing a text leaf followed by two attachment leaves stores the two attachments in order. */
  lemma IndexOfThree(text: MimeNode, a1: MimeNode, a2: MimeNode)
    requires text.Leaf? && !IsAttachment(text) && IsAttachment(a1) && IsAttachment(a2)
    ensures IndexParts([text, a1, a2], map[])
            == map[a1.partId.value := Describe(a1)][a2.partId.value := Describe(a2)]
  {
    var ls := [text, a1, a2];
    var m1 := map[a1.partId.value := Describe(a1)];
    var m2 := m1[a2.partId.value := Describe(a2)];
    assert ls[1..] == [a1, a2] && [a1, a2][1..] == [a2] && [a2][1..] == [];
    assert IndexNode(text, map[]) == map[];
    assert IndexParts([a2], m1) == m2 by {
      assert IndexNode(a2, m1) == m2;
    }
    assert IndexParts([a1, a2], map[]) == IndexParts([a2], m1) by {
      assert IndexNode(a1, map[]) == m1;
    }
  }

  /**
   * test_get_email_by_id_with_attachments_success: the inline text is the body, the type is
   * the root's, and the two attachment parts, and only they, are indexed by partId.
   */
  lemma AttachmentScenario(bodyContent: string)
    ensures var (email, attachments) := GetEmailWithAttachments(Some(AttachmentMessage(bodyContent)));
            && email.Some?
            && email.value.id == "msg_attach"
            && email.value.subject == Some("Email with Attachments")
            && email.value.body == Some(bodyContent)
            && email.value.mimeType == "multipart/mixed"
            && attachments == Attachments(AttachmentMessage(bodyContent).payload.root)
  {
    var m := AttachmentMessage(bodyContent);
    AttachmentLeaves3(bodyContent);
    MockHeadersParse("msg_attach", "thr_attach", "Email with Attachments", "sender@example.com",
                     "test@example.com", "Snippet attach", Some(bodyContent), "multipart/mixed",
                     AttachmentLeafList(bodyContent), []);
    FirstLeafBody(m, bodyContent);
  }

  /** A message whose first leaf holds `text` inline as plain text parses to that body. */
  lemma FirstLeafBody(m: RawMessage, text: string)
    requires |Leaves(m.payload.root)| > 0
    requires Leaves(m.payload.root)[0] == Leaf("text/plain", None, None, InlineBody(text))
    ensures ParseMessage(m, true) == Some(ParseHeaders(m).(body := Some(text)))
  {
    BodyIsFirstPlainText(m, 0);
  }

  /** The message of test_get_email_by_id_no_body: an HTML root whose `parts` is one HTML leaf. */
  function HtmlOnlyMessage(): RawMessage {
    var m := MockMessage("msg_no_body", "thr_no_body", "No Body", "sender@example.com",
                         "test@example.com", "Snippet no body", None, "text/html", [], []);
    m.(payload := m.payload.(root := Container("text/html",
        [Leaf("text/html", None, None, Body(100, Some("PGh0bWw+..."), None))])))
  }

  /** test_get_email_by_id_no_body: no `body` key, the root's type, and no attachments. */
  lemma HtmlOnlyScenario()
    ensures var (email, attachments) := GetEmailWithAttachments(Some(HtmlOnlyMessage()));
            && email.Some? && email.value.body == None
            && email.value.mimeType == "text/html"
            && attachments == map[]
  {
    var html := Leaf("text/html", None, None, Body(100, Some("PGh0bWw+..."), None));
    assert HtmlOnlyMessage().payload.root == Container("text/html", [html]);
    OneLeafNoBody(HtmlOnlyMessage(), html);
  }

  /** A container holding one leaf that is neither plain text nor an attachment: no body, no index. */
  lemma OneLeafNoBody(m: RawMessage, leaf: MimeNode)
    requires m.payload.root == Container(m.payload.root.mimeType, [leaf])
    requires leaf.Leaf? && !IsPlainTextLeaf(leaf) && !IsAttachment(leaf)
    ensures GetEmailWithAttachments(Some(m)) == (Some(ParseHeaders(m)), map[])
  {
    assert [leaf][1..] == [];
    assert LeavesOf([leaf]) == Leaves(leaf) + LeavesOf([]);
    assert Leaves(m.payload.root) == [leaf];
    NoPlainTextNoBody(m);
    assert IndexParts([leaf], map[]) == IndexParts([], IndexNode(leaf, map[]));
    assert Attachments(m.payload.root) == map[];
  }

  /** test_get_email_by_id_api_error: a failed fetch gives no email and no attachments. */
  lemma FetchFailureScenario()
    ensures GetEmailWithAttachments(None) == (None, map[])
  {
  }

  // ---------------------------------------------------------------- test_create_draft_*

  /** A comma-joined list of addresses that contain no newline contains no newline either. */
  lemma {:induction false} JoinAvoids(xs: seq<string>, sep: char, c: char)
    requires c != sep && forall i :: 0 <= i < |xs| ==> c !in xs[i]
    ensures c !in Join(xs, sep)
  {
    if |xs| > 1 {
      JoinAvoids(xs[1..], sep, c);
    }
  }

  /** Request fields that give legal header values. */
  predicate PlainRequest(req: ComposeRequest) {
    && '\n' !in req.to && '\n' !in req.subject
    && forall i :: 0 <= i < |req.cc| ==> '\n' !in req.cc[i] && ',' !in req.cc[i]
  }

  /**
   * A draft's `raw` field decodes to a message text that reads back to exactly the `to`,
   * `subject` and (with a cc list) `cc` headers and the body, and the cc list is recovered
   * from its header by splitting at commas.
   */
  lemma DraftReadsBack<R>(req: ComposeRequest, answer: Option<R>)
    requires PlainRequest(req)
    ensures var raw := CreateDraft(req, answer).0.raw;
            && DecodeText(raw).Some?
            && Unserialize(DecodeText(raw).value) == Some((DraftHeaders(req), req.body))
    ensures req.cc != [] ==> Split(Join(req.cc, ','), ',') == req.cc
  {
    if req.cc != [] {
      JoinAvoids(req.cc, ',', '\n');
      SplitJoin(req.cc, ',');
    }
    DraftHeadersWellFormed(req);
    UnserializeSerialize(DraftHeaders(req), req.body);
  }

  /** The headers of a draft for a plain request serialise unambiguously. */
  lemma DraftHeadersWellFormed(req: ComposeRequest)
    requires PlainRequest(req)
    ensures WellFormedHeaders(DraftHeaders(req))
  {
    var hs := DraftHeaders(req);
    if req.cc != [] {
      JoinAvoids(req.cc, ',', '\n');
      assert hs == [Header("to", req.to), Header("subject", req.subject), Header("cc", Join(req.cc, ','))];
    } else {
      assert hs == [Header("to", req.to), Header("subject", req.subject)];
    }
  }

  /** The comma-joined form of a two-address list. */
  lemma JoinTwo(a: string, b: string, sep: char)
    ensures Join([a, b], sep) == a + [sep] + b
  {
    assert [a, b][1..] == [b];
  }

  /**
   * test_create_draft_success and test_create_draft_with_cc_success: the exact message text
   * behind `raw` — lower-case `to`, `subject`, then `cc` with the addresses joined by commas
   * and no space, an empty line, and the body.
   */
  lemma DraftText<R>(req: ComposeRequest, answer: Option<R>)
    ensures var raw := CreateDraft(req, answer).0.raw;
            DecodeText(raw) == Some(("to: " + req.to + "\n") + ("subject: " + req.subject + "\n")
                                    + (if req.cc == [] then "" else "cc: " + Join(req.cc, ',') + "\n")
                                    + "\n" + req.body)
  {
    var hs := DraftHeaders(req);
    assert "to" + ": " == "to: " && "subject" + ": " == "subject: " && "cc" + ": " == "cc: ";
    if req.cc == [] {
      assert hs == [Header("to", req.to), Header("subject", req.subject)];
      LinesText([Header("to", req.to), Header("subject", req.subject)], req.body);
    } else {
      assert hs == [Header("to", req.to), Header("subject", req.subject), Header("cc", Join(req.cc, ','))];
      var cc := Join(req.cc, ',');
      LinesText([Header("to", req.to), Header("subject", req.subject), Header("cc", cc)], req.body);
    }
  }

  /** The message text of a two- or three-header list, line by line. */
  lemma LinesText(hs: seq<Header>, body: string)
    requires 2 <= |hs| <= 3
    ensures Serialize(hs, body) == HeaderLine(hs[0]) + HeaderLine(hs[1])
                                   + (if |hs| == 3 then HeaderLine(hs[2]) else "") + "\n" + body
  {
    assert hs[1..][1..] == hs[2..];
    assert HeaderBlock(hs) == HeaderLine(hs[0]) + (HeaderLine(hs[1]) + HeaderBlock(hs[2..]));
    if |hs| == 3 {
      assert hs[2..][1..] == [];
      assert HeaderBlock(hs[2..]) == HeaderLine(hs[2]);
    }
  }

  /** test_create_draft_with_cc_success: the `cc` value for the test's two addresses. */
  lemma DraftCcScenario()
    ensures Parser.HeaderValue(DraftHeaders(ComposeRequest("recipient@example.com", "Test Draft CC",
                                                           "This is the draft body with CC.",
                                                           ["cc1@example.com", "cc2@example.com"])), "cc")
            == Some("cc1@example.com,cc2@example.com")
  {
    JoinTwo("cc1@example.com", "cc2@example.com", ',');
    var joined := "cc1@example.com" + [','] + "cc2@example.com";
    assert |joined| == 31;
    forall i | 0 <= i < 31 ensures joined[i] == "cc1@example.com,cc2@example.com"[i] {
      if i < 15 {
        assert joined[i] == "cc1@example.com"[i];
      } else if i > 15 {
        assert joined[i] == "cc2@example.com"[i - 16];
      }
    }
    assert joined == "cc1@example.com,cc2@example.com";
  }

  // ---------------------------------------------------------------- test_delete_draft_*

  /** test_delete_draft_success and test_delete_draft_api_error. */
  lemma DeleteDraftScenario()
    ensures DeleteDraft("draft_to_delete", false) == (DeleteCall("draft_to_delete"), true)
    ensures DeleteDraft("draft_err", true).1 == false
  {
  }

  // ---------------------------------------------------------------- test_create_reply_*

  /** A header of the list shows as its `Name: value` line in the message text. */
  lemma ShowsHeader(hs: seq<Header>, body: string, i: int, name: string, value: string)
    requires 0 <= i < |hs| && hs[i] == Header(name, value)
    ensures Contains(Serialize(hs, body), name + ": " + value)
  {
    SerializeShows(hs, body, i);
  }

  /** The header lines of a reply's message text: `To`, `Subject`, `Cc`, `In-Reply-To`, `References`. */
  lemma ReplyHeaderLines(original: ParsedEmail, replyBody: string, cc: seq<string>)
    requires HasOriginator(original)
    ensures var text := Serialize(ReplyHeaders(original, cc), ReplyText(original, replyBody));
            && Contains(text, "To: " + original.from.value)
            && Contains(text, "Subject: " + ("Re: " + original.subject.GetOr("")))
            && Contains(text, "In-Reply-To: " + original.id)
            && Contains(text, "References: " + original.id)
            && (cc != [] ==> Contains(text, "Cc: " + Join(cc, ',')))
  {
    var ccs := if cc == [] then [] else [Header("Cc", Join(cc, ','))];
    var hs := ReplyHeaders(original, cc);
    assert hs == [Header("To", original.from.value), Header("Subject", "Re: " + original.subject.GetOr(""))]
                 + ccs + [Header("In-Reply-To", original.id), Header("References", original.id)];
    ShowsHeaderList(hs, ReplyText(original, replyBody), original.from.value,
                    "Re: " + original.subject.GetOr(""), ccs, original.id);
  }

  /** The lines of a header list shaped like a reply's. */
  lemma ShowsHeaderList(hs: seq<Header>, body: string, to: string, subject: string, ccs: seq<Header>, id: string)
    requires |ccs| <= 1 && (ccs != [] ==> ccs[0].name == "Cc")
    requires hs == [Header("To", to), Header("Subject", subject)] + ccs
                   + [Header("In-Reply-To", id), Header("References", id)]
    ensures Contains(Serialize(hs, body), "To: " + to)
    ensures Contains(Serialize(hs, body), "Subject: " + subject)
    ensures Contains(Serialize(hs, body), "In-Reply-To: " + id)
    ensures Contains(Serialize(hs, body), "References: " + id)
    ensures ccs != [] ==> Contains(Serialize(hs, body), "Cc: " + ccs[0].value)
  {
    var k := |ccs|;
    assert "To" + ": " == "To: " && "Subject" + ": " == "Subject: ";
    assert "In-Reply-To" + ": " == "In-Reply-To: " && "References" + ": " == "References: ";
    assert "Cc" + ": " == "Cc: ";
    ShowsHeader(hs, body, 0, "To", to);
    ShowsHeader(hs, body, 1, "Subject", subject);
    ShowsHeader(hs, body, 2 + k, "In-Reply-To", id);
    ShowsHeader(hs, body, 3 + k, "References", id);
    if ccs != [] {
      ShowsHeader(hs, body, 2, ccs[0].name, ccs[0].value);
    }
  }

  /** A body that starts with `lead` shows `lead` in the message text, and the text ends with the body. */
  lemma ShowsBody(hs: seq<Header>, lead: string, rest: string)
    ensures Contains(Serialize(hs, lead + rest), lead)
    ensures EndsWith(Serialize(hs, lead + rest), lead + rest)
  {
    var text := Serialize(hs, lead + rest);
    var at := |HeaderBlock(hs)| + 1;
    assert text == (HeaderBlock(hs) + "\n") + lead + rest;
    assert text[at..at + |lead|] == lead;
    assert OccursAt(text, lead, at);
    assert text[|text| - |lead + rest|..] == lead + rest;
  }

  /** The body of a reply's message text: the reply's own text, then the attribution and the quote. */
  lemma ReplyBodyShown(original: ParsedEmail, replyBody: string, hs: seq<Header>)
    requires HasOriginator(original)
    ensures var text := Serialize(hs, ReplyText(original, replyBody));
            && Contains(text, replyBody)
            && EndsWith(text, replyBody + "\n\n" + "On " + original.date.GetOr("") + ", "
                              + original.from.value + " wrote:\n"
                              + "> " + ReplaceNewlines(original.body.GetOr(""), "\n> "))
  {
    var rest := "\n\n" + "On " + original.date.GetOr("") + ", " + original.from.value + " wrote:\n"
                + Quote(original.body.GetOr(""));
    assert ReplyText(original, replyBody) == replyBody + rest;
    ShowsBody(hs, replyBody, rest);
  }

  /**
   * What the reply tests look for: a call is made carrying the original's thread, the result is
   * the provider's answer, and the decoded `raw` text shows the addressing and threading
   * headers, the reply's own text and the composed body at its end.
   */
  lemma ReplyShows<R>(original: ParsedEmail, replyBody: string, send: bool, cc: seq<string>,
                      answer: Option<R>)
    requires HasOriginator(original)
    ensures var (call, result) := CreateReply(original, replyBody, send, cc, answer);
            && call.Some? && result == answer
            && (if send then call.value.SendCall? && call.value.threadId == original.threadId
                else call.value.DraftCall? && call.value.messageThreadId == Some(original.threadId))
            && DecodeText(call.value.raw).Some?
            && var text := DecodeText(call.value.raw).value;
               && Contains(text, "To: " + original.from.value)
               && Contains(text, "Subject: " + ("Re: " + original.subject.GetOr("")))
               && Contains(text, "In-Reply-To: " + original.id)
               && Contains(text, "References: " + original.id)
               && (cc != [] ==> Contains(text, "Cc: " + Join(cc, ',')))
               && Contains(text, replyBody)
               && EndsWith(text, replyBody + "\n\n" + "On " + original.date.GetOr("") + ", "
                                 + original.from.value + " wrote:\n"
                                 + "> " + ReplaceNewlines(original.body.GetOr(""), "\n> "))
  {
    ReplyHeaderLines(original, replyBody, cc);
    ReplyBodyShown(original, replyBody, ReplyHeaders(original, cc));
  }

  /**
   * test_create_reply_draft_success: a reply saved as a draft with one cc address shows that
   * address on its `Cc` line, shows the reply's own text, and carries the original's thread.
   */
  lemma ReplyDraftCcScenario<R>(original: ParsedEmail, replyBody: string, ccAddr: string, answer: Option<R>)
    requires HasOriginator(original)
    ensures var call := CreateReply(original, replyBody, false, [ccAddr], answer).0;
            && call.Some? && call.value.DraftCall? && call.value.messageThreadId == Some(original.threadId)
            && DecodeText(call.value.raw).Some?
            && Contains(DecodeText(call.value.raw).value, "Cc: " + ccAddr)
            && Contains(DecodeText(call.value.raw).value, replyBody)
  {
    ReplyHeaderLines(original, replyBody, [ccAddr]);
    ReplyBodyShown(original, replyBody, ReplyHeaders(original, [ccAddr]));
    assert Join([ccAddr], ',') == ccAddr;
  }

  /** Text without a newline is left as it is by the newline replacement. */
  lemma {:induction false} NoNewlineUnchanged(s: string, with: string)
    requires '\n' !in s
    ensures ReplaceNewlines(s, with) == s
  {
    if s != [] {
      NoNewlineUnchanged(s[1..], with);
      assert [s[0]] + s[1..] == s;
    }
  }

  /**
   * test_create_reply_send_success: for a one-line original the composed body is the reply,
   * a blank line, the attribution line, and the original behind a single "> ".
   */
  lemma ReplyOneLineScenario(original: ParsedEmail, replyBody: string)
    requires HasOriginator(original) && '\n' !in original.body.GetOr("")
    ensures ReplyText(original, replyBody)
            == replyBody + "\n\nOn " + original.date.GetOr("") + ", " + original.from.value
               + " wrote:\n> " + original.body.GetOr("")
  {
    NoNewlineUnchanged(original.body.GetOr(""), "\n> ");
  }

  /** test_create_reply_no_from_error: without `from` nothing is sent and the result is absent. */
  lemma ReplyNoFromScenario<R>(answer: Option<R>)
    ensures CreateReply(ParsedEmail("orig_msg_no_from", "orig_thr_no_from", Some("No From"), None, None,
                                    Some("Wed, 16 Apr 2025 12:00:00 +0000"), "", "", Some("Body.")),
                        "Reply attempt.", true, [], answer) == (None, None)
  {
  }
}
