# Gmail service: message trees, parsing, drafts and replies

This project models the behaviour of a small Gmail service (`GmailService`) as its unit-test
suite pins it down. The service lists and fetches messages, reads a fetched message's headers,
plain-text body and attachment index, and creates drafts. It also deletes drafts and composes
replies, which are sent or saved as drafts. The implementation module `Email.py` is not part of
this model. The behaviour is rebuilt from the suite's fixture builders and from the exact values
its assertions expect.

The project has these modules:

- `Wrappers`: `Option` and a `byte` type.
- `Utf8`: a strict UTF-8 encoder and decoder over Unicode scalar values. Both round trips are proved.
- `Base64Url`: the URL-safe base64 alphabet with `=` padding, as Python's
  `urlsafe_b64encode` writes it. A decoder is given, and `Decode(Encode(b)) == Some(b)` is proved.
- `Mime`: the Gmail message record.
  - The payload tree is `MimeNode`: a `Leaf` with a type, an optional filename, an optional
    partId and a body, or a `Container` of parts.
  - The two fixture builders are `_create_mock_message` and `_create_mock_attachment_part`.
  - `_create_mock_message` is also given as an imperative method over a mutable `PayloadDict`
    object.
- `Parser`: the inbound direction.
  - Header lookup.
  - The depth-first search for the first plain-text leaf.
  - The attachment index keyed by partId.
  - `get_email_by_id_with_attachments`.
  - `query_emails`, a loop of one fetch per listed id.
- `Composer`: the outbound direction.
  - Serialisation of a header list and a body to message text, with a reader that inverts it.
  - The `raw` field.
  - `create_draft` and `delete_draft`.
  - Reply composition: addressing, `Re:` subject, threading headers and the `> `-quoted original.
- `Scenarios`: the outcomes each test asserts, stated for all inputs the fixtures accept. Most
  are also instantiated at the tests' values. The send-reply and draft-reply checks and the
  attachment test's body are stated for every input of the fixtures' shape (`ReplyShows`,
  `ReplyDraftCcScenario`, `AttachmentScenario`), which includes the tests' values.

The draft headers are written in lower case and in the order `to`, `subject`, `cc`, because
the draft tests fill their expected `MIMEText` objects in that order and compare the encoded
bytes for equality (testEmail.py:240-245, 262-268). The reply headers are capitalised, because
the reply tests search the message text for `To:`, `Subject:`, `In-Reply-To:` and `References:`
lines (testEmail.py:340-343, 374-378).

## Model

| member | source | states |
|---|---|---|
| Utf8.DecodeEncode | backend/tests/testEmail.py:51 | decoding the UTF-8 encoding of any text gives that text back |
| Utf8.EncodeDecode | backend/tests/testEmail.py:339 | any byte string the strict decoder accepts is the encoding of what it decodes to |
| Utf8.Encode | backend/tests/testEmail.py:51 | each character becomes one to four bytes |
| Utf8.Decode | backend/tests/testEmail.py:339 | computes strict `bytes.decode('utf-8')`, absent where Python raises; DecodeEncode and EncodeDecode make it the exact inverse of Encode |
| Base64Url.IndexOfCharOf | backend/tests/testEmail.py:51 | the alphabet is a bijection on 0..63 and never yields the padding character |
| Base64Url.Encode | backend/tests/testEmail.py:51 | the encoding is padded to a multiple of four characters and is empty only for empty input |
| Base64Url.Decode | backend/tests/testEmail.py:336 | computes `urlsafe_b64decode` on padded URL-safe input, absent otherwise; DecodeEncode proves it inverts Encode |
| Base64Url.DecodeEncode | backend/tests/testEmail.py:336 | decoding the base64url encoding of any byte string gives it back |
| Mime.DecodeEncodeText | backend/tests/testEmail.py:51 | a text stored as a `data` field (UTF-8, then base64url) decodes back to itself |
| Mime.EncodeText | backend/tests/testEmail.py:51 | computes a `data` field: UTF-8, then base64url; DecodeEncodeText proves DecodeText inverts it |
| Mime.DecodeText | backend/tests/testEmail.py:336-339 | computes base64url decoding, then strict UTF-8 decoding; absent when either fails; DecodeEncodeText proves it inverts EncodeText |
| Mime.InlineBody | backend/tests/testEmail.py:51 | an inline body has size `len(text)` and no attachmentId, and its data decodes to the text |
| Mime.MockRoot | backend/tests/testEmail.py:43-58 | the tree has the requested type; explicit parts make a container of exactly those parts; a non-empty text/plain body is an inline leaf whose data decodes to the body; a non-empty multipart body without parts is a container of one inline text/plain leaf; otherwise a leaf with the empty body |
| Mime.MockMessage | backend/tests/testEmail.py:31-70 | the record keeps the id, thread and snippet; its headers are the five fixed headers, then the extra ones; its payload tree is the one MockRoot builds from body, type and parts |
| Mime.FixtureHeaders | backend/tests/testEmail.py:33-39 | computes the five fixed headers Subject, From, To, Date and Message-ID `<id@mail.gmail.com>`; FixtureLookups proves each is found under its name |
| Mime.PayloadDict.ToPayload | backend/tests/testEmail.py:43-48 | the dictionary read as a payload keeps its headers and type; it is a container exactly when `parts` is non-empty, and then its children are `parts`; otherwise it is a leaf carrying `body`, with no filename or partId |
| Mime.CreateMockMessage | backend/tests/testEmail.py:31-70 | the builder that extends the header list and overwrites `body`/`parts` in place yields exactly the record MockMessage describes |
| Mime.MockAttachmentPart | backend/tests/testEmail.py:72-82 | an attachment part is a leaf with the given partId, filename and type, whose body refers to its bytes by attachmentId, has the fixed size 1000 and holds no inline data |
| Parser.HeaderValue | backend/tests/testEmail.py:137-140 | a lookup is absent exactly when no header has the name; a present value belongs to a header of that name |
| Parser.HeaderValueAt | backend/tests/testEmail.py:183-184 | the lookup yields the value of the first header with the name |
| Parser.FirstPlainText | backend/tests/testEmail.py:185 | the body candidate is absent exactly when no leaf is an inline text/plain leaf; otherwise it is the data of the first one |
| Parser.FindBodyIsFirst | backend/tests/testEmail.py:167-186 | the early-exit walk of the tree finds the same data as the first plain-text leaf in document order |
| Parser.FindBody | backend/tests/testEmail.py:185 | computes the early-exit search of the node, then its parts; FindBodyIsFirst proves it equals the first plain-text leaf in document order |
| Parser.FindBodyIn | backend/tests/testEmail.py:185 | computes FindBody over sibling parts, the first hit winning; FindBodyInIsFirst proves it equals the first plain-text leaf of their leaves |
| Parser.Describe | backend/tests/testEmail.py:192-195 | an index entry carries the leaf's filename, type, attachmentId and size |
| Parser.IsAttachment | backend/tests/testEmail.py:188-195 | the walk's rule for an attachment: a leaf with a non-empty filename, an attachmentId and a partId |
| Parser.IsPlainTextLeaf | backend/tests/testEmail.py:183-185 | the walk's rule for a body source: a text/plain leaf with inline data that is not an attachment |
| Parser.IndexNodeIsIndexLeaves | backend/tests/testEmail.py:188-191 | indexing the tree is indexing its leaves in document order |
| Parser.IndexNode | backend/tests/testEmail.py:188-195 | computes the walk that stores each attachment leaf under its partId; IndexNodeIsIndexLeaves proves it equals a pass over the leaves in document order |
| Parser.IndexParts | backend/tests/testEmail.py:188-195 | computes IndexNode over sibling parts in order; IndexPartsIsIndexLeaves proves it equals a pass over their leaves |
| Parser.Attachments | backend/tests/testEmail.py:188-195 | computes the index of a message tree from an empty map; AttachmentsSpec states its keys and entries |
| Parser.IndexLeavesContents | backend/tests/testEmail.py:188-195 | the keys are the earlier keys plus the attachment partIds; each partId maps to its last leaf; other keys are untouched |
| Parser.AttachmentIdsCount | backend/tests/testEmail.py:189 | with distinct partIds there are as many partIds as attachment leaves |
| Parser.AttachmentsSpec | backend/tests/testEmail.py:188-195 | the index holds exactly the attachment leaves' partIds; with distinct partIds it holds one entry per attachment leaf, each describing its leaf |
| Parser.ParseHeaders | backend/tests/testEmail.py:136-141 | subject, from, to and date come from the root headers; id, thread, snippet and type come from the record; there is no body |
| Parser.ParseMessage | backend/tests/testEmail.py:179-186 | without body parsing the headers alone are returned; with it the body is the decoded first plain-text data; a tree without one gives no body; undecodable data gives no result |
| Parser.GetEmailWithAttachments | backend/tests/testEmail.py:213-220 | a failed fetch or parse gives no email and an empty index; otherwise the parsed email and the tree's index |
| Parser.GetEmailSuccess | backend/tests/testEmail.py:179-195 | a fetched message whose first plain-text leaf decodes, or which has none, gives an email equal to its header parse apart from the body; the body is present exactly when there is a plain-text leaf and is the decoded first one; the index keys are exactly the attachment partIds |
| Parser.NoPlainTextNoBody | backend/tests/testEmail.py:207-210 | a tree without a plain-text leaf parses to no body and to the root's type |
| Parser.BodyIsFirstPlainText | backend/tests/testEmail.py:167-186 | the parsed body is the decoded text of the first plain-text leaf |
| Parser.QueryEmails | backend/tests/testEmail.py:118-158 | every listed id is fetched once, in order, and each result is the header parse of its message; an id that cannot be fetched stops the loop with no results |
| Parser.ListedRefs | backend/tests/testEmail.py:143-158 | computes the listed references: none for a failed listing or a response without a `messages` key |
| Parser.FetchWhileFound | backend/tests/testEmail.py:127-134 | the loop stops at the first id missing from the mailbox; everything before it was fetched in listing order, and each result is the parse of its message |
| Composer.Split | backend/tests/testEmail.py:265 | the inverse of the comma join used to read the cc value back: splitting yields at least one piece, and no piece contains the separator |
| Composer.SplitJoin | backend/tests/testEmail.py:265 | splitting a joined list whose items avoid the separator gives the list back |
| Composer.Join | backend/tests/testEmail.py:265 | computes `sep.join(xs)`; SplitJoin and JoinSplit prove Split inverts it for items without the separator |
| Composer.JoinSplit | backend/tests/testEmail.py:265 | Split is the inverse of Join in this direction too: joining the pieces of a split gives the text back |
| Composer.Find | backend/tests/testEmail.py:336-339 | used by the reader that inverts Serialize to prove read-back: the result is the first position of the character, or the length when it is absent |
| Composer.ParseHeaderLineOf | backend/tests/testEmail.py:336-339 | the header-line reader inverts the writer Serialize uses, to prove read-back: a header line whose name has no colon reads back to that header |
| Composer.UnserializeSerialize | backend/tests/testEmail.py:336-339 | reading back a serialised message gives exactly its header list and body |
| Composer.Serialize | backend/tests/testEmail.py:243 | computes the message text: header lines, an empty line, the body; UnserializeSerialize proves it reads back exactly and SerializeShows that it shows every header line and ends with the body |
| Composer.SerializeShows | backend/tests/testEmail.py:340-345 | the message text contains every header's `Name: value` line and ends with the body |
| Composer.SerializeShowsLine | backend/tests/testEmail.py:340-344 | the message text contains the `Name: value` line of each header in the list |
| Composer.Raw | backend/tests/testEmail.py:243 | the `raw` field decodes (base64url, then UTF-8) to the serialised message |
| Composer.DraftHeaders | backend/tests/testEmail.py:240-242 | the draft headers give `to` and `subject`, and `cc` as the comma-joined list exactly when a cc list is given |
| Composer.CreateDraft | backend/tests/testEmail.py:230-245 | the call is a drafts call with no thread id, whose raw field is the base64url UTF-8 encoding of the serialised draft and decodes back to it; the result is the provider's answer |
| Composer.DeleteDraft | backend/tests/testEmail.py:276-292 | the delete call names the draft; the result is true exactly when the call did not raise |
| Composer.PrefixEveryLine | backend/tests/testEmail.py:316 | replacing each newline with newline-plus-prefix puts the prefix in front of every line |
| Composer.QuoteEveryLine | backend/tests/testEmail.py:316 | the quoted original is every line of it behind `> `, joined by newlines |
| Composer.ReplaceNewlines | backend/tests/testEmail.py:316 | computes `s.replace('\n', with)`; PrefixEveryLine and NoNewlineUnchanged state its effect |
| Composer.Quote | backend/tests/testEmail.py:316 | computes `"> " + s.replace('\n', '\n> ')`; QuoteEveryLine proves it puts `> ` in front of every line |
| Composer.ReplyText | backend/tests/testEmail.py:313-317 | the reply body is the reply, a blank line, the `On <date>, <from> wrote:` line and every line of the original behind `> `, joined by newlines |
| Composer.ReplyHeaders | backend/tests/testEmail.py:340-343 | the reply has `To` the original's from, `Subject` "Re: " plus the subject, `In-Reply-To` and `References` the original id, and `Cc` exactly when a cc list is given; there are no other headers (four, or five with `Cc`) |
| Composer.ReplyHeadersLookup | backend/tests/testEmail.py:374-378 | each reply header is found under its name |
| Composer.ReplyThreadLookup | backend/tests/testEmail.py:377-378 | in a reply-shaped header list, with or without its Cc line, In-Reply-To and References are found at their own positions |
| Composer.CreateReply | backend/tests/testEmail.py:322-345 | a call is made exactly when the original has a sender; it is a send with the thread or a draft with the thread; its raw field decodes to the reply headers and text |
| Composer.HasOriginator | backend/tests/testEmail.py:382-391 | the originator check: a non-empty `from`; CreateReply's contract makes a call exactly when it holds |
| Scenarios.MockHeadersParse | backend/tests/testEmail.py:137-141 | the header parse of any fixture message gives its subject, sender, recipient, date, id and type, with no body |
| Scenarios.FixtureLookups | backend/tests/testEmail.py:137-140 | a header list led by the fixture's Subject, From, To and Date headers yields each of those values under its name |
| Scenarios.LeadingLookups | backend/tests/testEmail.py:137-140 | when four distinct names lead a header list, each lookup finds the header at its own position |
| Scenarios.MockBodyParses | backend/tests/testEmail.py:50-58 | a fixture built with a non-empty text/plain or multipart body and no parts parses to that body |
| Scenarios.MockWithoutBody | backend/tests/testEmail.py:200 | a fixture without a body or parts parses to its headers and has no attachments |
| Scenarios.QueryMailbox | backend/tests/testEmail.py:123-124 | the two fixture messages of the query test, stored under their ids |
| Scenarios.QuerySuccess | backend/tests/testEmail.py:129-141 | both ids are fetched in order, and two emails result with the ids and subjects of the fixtures and no body |
| Scenarios.QueryNothing | backend/tests/testEmail.py:143-158 | a listing without messages, or a failed listing, gives no fetch and no emails |
| Scenarios.AttachmentLeaves3 | backend/tests/testEmail.py:167-175 | the attachment fixture is a flat container whose leaves are its three parts |
| Scenarios.AttachmentIndexScenario | backend/tests/testEmail.py:188-195 | the index has exactly the keys part1 and part2, with their filenames and attachmentIds |
| Scenarios.IndexOfThree | backend/tests/testEmail.py:188-195 | a text leaf followed by two attachment leaves indexes to exactly the entries for the two attachments, stored in order under their partIds |
| Scenarios.AttachmentScenario | backend/tests/testEmail.py:179-186 | the email has the fixture's id and subject, the inline text as body and the root type multipart/mixed |
| Scenarios.FirstLeafBody | backend/tests/testEmail.py:184-185 | a message whose first leaf is an inline text/plain leaf parses to that leaf's text as the body |
| Scenarios.HtmlOnlyScenario | backend/tests/testEmail.py:198-210 | an HTML-only message gives no body, the type text/html and an empty index |
| Scenarios.OneLeafNoBody | backend/tests/testEmail.py:207-210 | a container with a single leaf that is neither plain text nor an attachment gives the header parse and an empty index |
| Scenarios.FetchFailureScenario | backend/tests/testEmail.py:213-220 | a failed fetch gives no email and an empty index |
| Scenarios.JoinAvoids | backend/tests/testEmail.py:265 | a joined list of newline-free items has no newline |
| Scenarios.DraftReadsBack | backend/tests/testEmail.py:240-245 | a draft's raw field reads back to exactly its headers and body, and its cc list is recovered from the cc value |
| Scenarios.DraftHeadersWellFormed | backend/tests/testEmail.py:240-242 | the draft headers of a request with newline-free fields have colon-free names and newline-free names and values |
| Scenarios.DraftText | backend/tests/testEmail.py:240-268 | the draft text is the `to` line, the `subject` line, the comma-joined `cc` line when there is one, an empty line and the body |
| Scenarios.DraftCcScenario | backend/tests/testEmail.py:262-265 | the two cc addresses of the test give the cc value `cc1@example.com,cc2@example.com` |
| Scenarios.DeleteDraftScenario | backend/tests/testEmail.py:276-292 | deleting calls delete with the id and returns true; a raising call returns false |
| Scenarios.ShowsHeaderList | backend/tests/testEmail.py:340-343 | a reply-shaped header list shows its To, Subject, Cc, In-Reply-To and References lines |
| Scenarios.ReplyHeaderLines | backend/tests/testEmail.py:340-343 | a reply's text contains the To, Subject, In-Reply-To and References lines, and the Cc line when there is a cc list |
| Scenarios.ShowsBody | backend/tests/testEmail.py:345 | the message text contains the body's first part and ends with the whole body |
| Scenarios.ReplyBodyShown | backend/tests/testEmail.py:313-317 | a reply's text contains the reply and ends with reply, blank line, attribution line and quoted original |
| Scenarios.ReplyShows | backend/tests/testEmail.py:322-345 | every reply check of the send test holds for every original with a sender, for sends and drafts alike |
| Scenarios.ReplyDraftCcScenario | backend/tests/testEmail.py:359-379 | a reply saved as a draft with one cc address carries the thread and shows the address on its Cc line and the reply text |
| Scenarios.NoNewlineUnchanged | backend/tests/testEmail.py:316 | newline replacement leaves newline-free text unchanged |
| Scenarios.ReplyOneLineScenario | backend/tests/testEmail.py:313-317 | for a one-line original the composed body is the reply, a blank line, the attribution line and the original behind "> " |
| Scenarios.ReplyNoFromScenario | backend/tests/testEmail.py:382-391 | a reply to an original without a sender makes no call and returns nothing |

## Left out

- The mocking plumbing is left out: `MagicMock` and `patch`, the `gauth` stub and the API client `build` (testEmail.py:24-26, 84-102). These are test doubles with no logic of their own.
- Construction from stored credentials is left out, including the "No Oauth2 credentials stored" error (testEmail.py:105-116), because it only checks a collaborator.
- The `sys.path` import fallback (testEmail.py:9-21) is left out; it is import plumbing.
- The list call's arguments (`q`, `maxResults`, with defaults `''` and `100`) are left out. They are passed to the provider unchanged and do not affect the model; the listing is a parameter.
- Transport is not modelled as a remote call. Each provider answer is a parameter: a mailbox map, an `Option` answer or a "raised" flag. A raising call is modelled only through that parameter.
- `get_attachment` (testEmail.py:407-432) is left out. It returns the provider's answer unchanged.
- `create_draft`'s and `create_reply`'s results are the provider's answer, a type parameter; the draft id and label fields inside that answer are not modelled.
- The byte layout of `MIMEText.as_bytes()` is left out: its `Content-Type`, `MIME-Version` and `Content-Transfer-Encoding` headers, the body transfer encoding and line folding. The message text is the header lines, an empty line and the body verbatim.
- Composer.Serialize: the text differs from `MIMEText.as_bytes()` byte for byte, so the draft tests' equality with `expected_raw` holds only up to those extra headers.
- Mime.MockRoot: the builder given a text/plain body together with explicit parts keeps both in the dictionary; the model's tree is then the container of parts and drops the inline body, since a node is either a leaf or a container.
- Parser.IsAttachment: a leaf counts as an attachment only when it also has a partId, because the index is keyed by partId.
- Base64Url.Decode: the model's decoder accepts only padded input over the URL-safe alphabet, with `=` only in the last group, ignoring the unused low bits of a final group. Python's `urlsafe_b64decode` also rejects missing padding, but it differs in four ways. It maps `+` and `/` to 62 and 63 (`++++` gives three bytes there and no result here). It discards other characters outside the alphabet. It tolerates extra `=`. It stops at the first complete padded group (`QQ==QQ==` gives one byte there and no result here). All of these are inputs the encoder never produces.
- Parser.HeaderValue: when a header name occurs more than once, the first occurrence wins. The suite never repeats a header name, and `Email.py` is not part of this model, so neither first nor last is pinned down.
- Parser.ParseMessage: plain-text data that does not decode makes the whole fetch give no email rather than raising; the exception path is reduced to an absent result.
- Composer.ReplyText: a missing subject, date or body in the original is read as empty text.
- Composer.ReplyHeaders: the tests fix which headers appear, not their order; the model uses `To`, `Subject`, `Cc`, `In-Reply-To`, `References`.
- Logging on error paths is left out.
