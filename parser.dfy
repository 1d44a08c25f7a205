/**
 * The inbound direction: a provider record becomes a flat ParsedEmail (header fields, the
 * root's content type, and a plain-text body when one is asked for and found) and an
 * attachment index keyed by part id. The tree walks are structural recursions; the
 * document-order list of leaves, Leaves, is the reference both walks are proved against.
 */
module Parser {
  import opened Wrappers
  import opened Mime

  /** The dictionary the service returns for one message. `body` absent is the missing key. */
  datatype ParsedEmail = ParsedEmail(
    id: string,
    threadId: string,
    subject: Option<string>,
    from: Option<string>,
    to: Option<string>,
    date: Option<string>,
    snippet: string,
    mimeType: string,
    body: Option<string>)

  /** What the index records of one attachment leaf. */
  datatype AttachmentDescriptor = AttachmentDescriptor(
    filename: string, mimeType: string, attachmentId: string, size: nat)

  /** Attachments keyed by `partId`. */
  type AttachmentIndex = map<string, AttachmentDescriptor>

  // ---------------------------------------------------------------- headers

  /** The value of the first header called `name` (exact, case-sensitive match), if any. */
  function HeaderValue(hs: seq<Header>, name: string): (r: Option<string>)
    ensures r.None? <==> forall i :: 0 <= i < |hs| ==> hs[i].name != name
    ensures r.Some? ==> exists i :: 0 <= i < |hs| && hs[i] == Header(name, r.value)
                                   && forall j :: 0 <= j < i ==> hs[j].name != name
  {
    if hs == [] then None
    else if hs[0].name == name then Some(hs[0].value)
    else
      var r := HeaderValue(hs[1..], name);
      assert r.Some? ==> exists i :: 1 <= i < |hs| && hs[i] == Header(name, r.value)
                                   && forall j :: 0 <= j < i ==> hs[j].name != name by {
        if r.Some? {
          var k :| 0 <= k < |hs[1..]| && hs[1..][k] == Header(name, r.value)
                   && forall j :: 0 <= j < k ==> hs[1..][j].name != name;
          assert hs[k + 1] == Header(name, r.value);
          assert forall j :: 0 <= j < k + 1 ==> hs[j].name != name by {
            forall j | 0 <= j < k + 1 ensures hs[j].name != name {
              if j > 0 { assert hs[j] == hs[1..][j - 1]; }
            }
          }
        }
      }
      r
  }

  /** The first header called `name` is the one HeaderValue reports. */
  lemma {:induction false} HeaderValueAt(hs: seq<Header>, name: string, i: int)
    requires 0 <= i < |hs| && hs[i].name == name
    requires forall j :: 0 <= j < i ==> hs[j].name != name
    ensures HeaderValue(hs, name) == Some(hs[i].value)
  {
    if i > 0 {
      assert hs[1..][i - 1] == hs[i];
      HeaderValueAt(hs[1..], name, i - 1);
    }
  }

  // ---------------------------------------------------------------- leaves in document order

  /** The leaves under `n`, depth first, parts in document order. */
  function Leaves(n: MimeNode): (r: seq<MimeNode>)
    ensures forall i :: 0 <= i < |r| ==> r[i].Leaf?
    decreases n, 1
  {
    match n
    case Leaf(_, _, _, _) => [n]
    case Container(_, parts) => LeavesOf(parts)
  }

  /** The leaves under each of `ps`, one part after the other. */
  function LeavesOf(ps: seq<MimeNode>): (r: seq<MimeNode>)
    ensures forall i :: 0 <= i < |r| ==> r[i].Leaf?
    decreases ps, 0
  {
    if ps == [] then [] else Leaves(ps[0]) + LeavesOf(ps[1..])
  }

  // ---------------------------------------------------------------- classification of leaves

  /** A leaf counts as an attachment: it has a non-empty filename, an attachmentId and a partId. */
  predicate IsAttachment(n: MimeNode) {
    && n.Leaf?
    && n.filename.Some? && n.filename.value != ""
    && n.body.attachmentId.Some?
    && n.partId.Some?
  }

  /** A leaf that can supply the body: text/plain with inline data, and not an attachment. */
  predicate IsPlainTextLeaf(n: MimeNode) {
    n.Leaf? && n.mimeType == "text/plain" && n.body.data.Some? && !IsAttachment(n)
  }

  // ---------------------------------------------------------------- the body

  /** The inline data of the first plain-text leaf in `ls`. */
  function FirstPlainText(ls: seq<MimeNode>): (r: Option<string>)
    ensures r.None? <==> forall i :: 0 <= i < |ls| ==> !IsPlainTextLeaf(ls[i])
    ensures r.Some? ==> exists i :: 0 <= i < |ls| && IsPlainTextLeaf(ls[i])
                                   && r.value == ls[i].body.data.value
                                   && forall j :: 0 <= j < i ==> !IsPlainTextLeaf(ls[j])
  {
    if ls == [] then None
    else if IsPlainTextLeaf(ls[0]) then Some(ls[0].body.data.value)
    else
      var r := FirstPlainText(ls[1..]);
      assert r.Some? ==> exists i :: 1 <= i < |ls| && IsPlainTextLeaf(ls[i])
                                   && r.value == ls[i].body.data.value
                                   && forall j :: 0 <= j < i ==> !IsPlainTextLeaf(ls[j]) by {
        if r.Some? {
          var k :| 0 <= k < |ls[1..]| && IsPlainTextLeaf(ls[1..][k])
                   && r.value == ls[1..][k].body.data.value
                   && forall j :: 0 <= j < k ==> !IsPlainTextLeaf(ls[1..][j]);
          assert ls[k + 1] == ls[1..][k];
          forall j | 0 <= j < k + 1 ensures !IsPlainTextLeaf(ls[j]) {
            if j > 0 { assert ls[j] == ls[1..][j - 1]; }
          }
        }
      }
      r
  }

  /** The body search of the walk: the node first, then its parts in order; the first hit wins. */
  function FindBody(n: MimeNode): Option<string>
    decreases n, 1
  {
    match n
    case Leaf(_, _, _, _) => if IsPlainTextLeaf(n) then Some(n.body.data.value) else None
    case Container(_, parts) => FindBodyIn(parts)
  }

  /** FindBody over a list of sibling parts. */
  function FindBodyIn(ps: seq<MimeNode>): Option<string>
    decreases ps, 0
  {
    if ps == [] then None
    else
      match FindBody(ps[0])
      case Some(d) => Some(d)
      case None => FindBodyIn(ps[1..])
  }

  /** The first hit of a concatenation is the first hit of its first half, if any. */
  lemma {:induction false} FirstPlainTextAppend(a: seq<MimeNode>, b: seq<MimeNode>)
    ensures FirstPlainText(a + b) == if FirstPlainText(a).Some? then FirstPlainText(a) else FirstPlainText(b)
  {
    if a != [] {
      assert (a + b)[1..] == a[1..] + b;
      FirstPlainTextAppend(a[1..], b);
    } else {
      assert a + b == b;
    }
  }

  /** The body search finds the first plain-text leaf in document order, at any depth. */
  lemma {:induction false} FindBodyIsFirst(n: MimeNode)
    ensures FindBody(n) == FirstPlainText(Leaves(n))
    decreases n, 1
  {
    match n
    case Leaf(_, _, _, _) =>
    case Container(_, parts) => FindBodyInIsFirst(parts);
  }

  /** FindBodyIsFirst over a list of sibling parts. */
  lemma {:induction false} FindBodyInIsFirst(ps: seq<MimeNode>)
    ensures FindBodyIn(ps) == FirstPlainText(LeavesOf(ps))
    decreases ps, 0
  {
    if ps != [] {
      FindBodyIsFirst(ps[0]);
      FindBodyInIsFirst(ps[1..]);
      FirstPlainTextAppend(Leaves(ps[0]), LeavesOf(ps[1..]));
    }
  }

  // ---------------------------------------------------------------- the attachment index

  /** The descriptor recorded for an attachment leaf. */
  function Describe(n: MimeNode): (d: AttachmentDescriptor)
    requires IsAttachment(n)
    ensures d.filename == n.filename.value && d.attachmentId == n.body.attachmentId.value
    ensures d.mimeType == n.mimeType && d.size == n.body.size
  {
    AttachmentDescriptor(n.filename.value, n.mimeType, n.body.attachmentId.value, n.body.size)
  }

  /** The walk that fills the index: each attachment leaf is stored under its partId. */
  function IndexNode(n: MimeNode, acc: AttachmentIndex): AttachmentIndex
    decreases n, 1
  {
    match n
    case Leaf(_, _, _, _) => if IsAttachment(n) then acc[n.partId.value := Describe(n)] else acc
    case Container(_, parts) => IndexParts(parts, acc)
  }

  /** IndexNode over a list of sibling parts, in order. */
  function IndexParts(ps: seq<MimeNode>, acc: AttachmentIndex): AttachmentIndex
    decreases ps, 0
  {
    if ps == [] then acc else IndexParts(ps[1..], IndexNode(ps[0], acc))
  }

  /** The attachment index of a message tree. */
  function Attachments(root: MimeNode): AttachmentIndex {
    IndexNode(root, map[])
  }

  /** The same index built from a flat list of leaves, one store per attachment. */
  function IndexLeaves(ls: seq<MimeNode>, acc: AttachmentIndex): AttachmentIndex {
    if ls == [] then acc
    else IndexLeaves(ls[1..], if IsAttachment(ls[0]) then acc[ls[0].partId.value := Describe(ls[0])] else acc)
  }

  /** Building from a concatenation is building from the first half, then the second. */
  lemma {:induction false} IndexLeavesAppend(a: seq<MimeNode>, b: seq<MimeNode>, acc: AttachmentIndex)
    ensures IndexLeaves(a + b, acc) == IndexLeaves(b, IndexLeaves(a, acc))
  {
    if a != [] {
      assert (a + b)[1..] == a[1..] + b;
      IndexLeavesAppend(a[1..], b, if IsAttachment(a[0]) then acc[a[0].partId.value := Describe(a[0])] else acc);
    } else {
      assert a + b == b;
    }
  }

  /** The tree walk stores exactly what a pass over the leaves in document order stores. */
  lemma {:induction false} IndexNodeIsIndexLeaves(n: MimeNode, acc: AttachmentIndex)
    ensures IndexNode(n, acc) == IndexLeaves(Leaves(n), acc)
    decreases n, 1
  {
    match n
    case Leaf(_, _, _, _) =>
    case Container(_, parts) => IndexPartsIsIndexLeaves(parts, acc);
  }

  /** IndexNodeIsIndexLeaves over a list of sibling parts. */
  lemma {:induction false} IndexPartsIsIndexLeaves(ps: seq<MimeNode>, acc: AttachmentIndex)
    ensures IndexParts(ps, acc) == IndexLeaves(LeavesOf(ps), acc)
    decreases ps, 0
  {
    if ps != [] {
      IndexNodeIsIndexLeaves(ps[0], acc);
      IndexPartsIsIndexLeaves(ps[1..], IndexNode(ps[0], acc));
      IndexLeavesAppend(Leaves(ps[0]), LeavesOf(ps[1..]), acc);
    }
  }

  /** The partIds of the attachment leaves of `ls`. */
  function AttachmentIds(ls: seq<MimeNode>): set<string> {
    set i | 0 <= i < |ls| && IsAttachment(ls[i]) :: ls[i].partId.value
  }

  /** Whether leaf `i` is the last attachment leaf of `ls` with its partId. */
  predicate IsLastWithId(ls: seq<MimeNode>, i: int)
    requires 0 <= i < |ls| && IsAttachment(ls[i])
  {
    forall j :: i < j < |ls| && IsAttachment(ls[j]) ==> ls[j].partId != ls[i].partId
  }

  /** No two attachment leaves of `ls` share a partId. */
  predicate UniqueIds(ls: seq<MimeNode>) {
    forall i, j :: 0 <= i < j < |ls| && IsAttachment(ls[i]) && IsAttachment(ls[j]) ==> ls[i].partId != ls[j].partId
  }

  /** The partIds of a non-empty list: its head's, if an attachment, and those of its tail. */
  lemma AttachmentIdsCons(ls: seq<MimeNode>)
    requires ls != []
    ensures AttachmentIds(ls) == (if IsAttachment(ls[0]) then {ls[0].partId.value} else {}) + AttachmentIds(ls[1..])
  {
    var tl := ls[1..];
    forall k | k in AttachmentIds(ls)
      ensures k in (if IsAttachment(ls[0]) then {ls[0].partId.value} else {}) + AttachmentIds(tl)
    {
      var i :| 0 <= i < |ls| && IsAttachment(ls[i]) && ls[i].partId.value == k;
      if i > 0 { assert tl[i - 1] == ls[i]; }
    }
    forall k | k in AttachmentIds(tl) ensures k in AttachmentIds(ls) {
      var i :| 0 <= i < |tl| && IsAttachment(tl[i]) && tl[i].partId.value == k;
      assert ls[i + 1] == tl[i];
    }
  }

  /**
   * What the pass over the leaves stores: the keys are those already present plus the partId
   * of every attachment leaf, and each attachment leaf that is the last one with its partId
   * is the entry under that partId.
   */
  lemma {:induction false} IndexLeavesContents(ls: seq<MimeNode>, acc: AttachmentIndex)
    ensures IndexLeaves(ls, acc).Keys == acc.Keys + AttachmentIds(ls)
    ensures forall i :: 0 <= i < |ls| && IsAttachment(ls[i]) && IsLastWithId(ls, i) ==>
              IndexLeaves(ls, acc)[ls[i].partId.value] == Describe(ls[i])
    ensures forall k :: k in acc && k !in AttachmentIds(ls) ==> IndexLeaves(ls, acc)[k] == acc[k]
  {
    if ls != [] {
      var acc' := if IsAttachment(ls[0]) then acc[ls[0].partId.value := Describe(ls[0])] else acc;
      var tl := ls[1..];
      IndexLeavesContents(tl, acc');
      var r := IndexLeaves(ls, acc);
      assert r == IndexLeaves(tl, acc');
      AttachmentIdsCons(ls);
      forall i | 0 <= i < |ls| && IsAttachment(ls[i]) && IsLastWithId(ls, i)
        ensures r[ls[i].partId.value] == Describe(ls[i])
      {
        if i == 0 {
          var k := ls[0].partId.value;
          forall j | 0 <= j < |tl| && IsAttachment(tl[j]) ensures tl[j].partId.value != k {
            assert ls[j + 1] == tl[j];
          }
          assert k !in AttachmentIds(tl);
        } else {
          assert tl[i - 1] == ls[i];
          assert IsLastWithId(tl, i - 1) by {
            forall j | i - 1 < j < |tl| && IsAttachment(tl[j]) ensures tl[j].partId != tl[i - 1].partId {
              assert tl[j] == ls[j + 1];
            }
          }
        }
      }
    }
  }

  /** The attachment leaves of a tree, in document order. */
  function AttachmentLeaves(n: MimeNode): (r: seq<MimeNode>)
    ensures forall i :: 0 <= i < |r| ==> IsAttachment(r[i])
  {
    Filter(Leaves(n))
  }

  /** The attachment leaves of `ls`, in order. */
  function Filter(ls: seq<MimeNode>): (r: seq<MimeNode>)
    ensures forall i :: 0 <= i < |r| ==> IsAttachment(r[i])
  {
    if ls == [] then [] else (if IsAttachment(ls[0]) then [ls[0]] else []) + Filter(ls[1..])
  }

  /** With distinct partIds the index has one entry per attachment leaf. */
  lemma {:induction false} AttachmentIdsCount(ls: seq<MimeNode>)
    requires UniqueIds(ls)
    ensures |AttachmentIds(ls)| == |Filter(ls)|
  {
    if ls != [] {
      var tl := ls[1..];
      assert UniqueIds(tl) by {
        forall i, j | 0 <= i < j < |tl| && IsAttachment(tl[i]) && IsAttachment(tl[j])
          ensures tl[i].partId != tl[j].partId
        {
          assert tl[i] == ls[i + 1] && tl[j] == ls[j + 1];
        }
      }
      AttachmentIdsCount(tl);
      AttachmentIdsCons(ls);
      if IsAttachment(ls[0]) {
        var k := ls[0].partId.value;
        forall j | 0 <= j < |tl| && IsAttachment(tl[j]) ensures tl[j].partId.value != k {
          assert ls[j + 1] == tl[j];
        }
        assert k !in AttachmentIds(tl);
      }
    }
  }

  /**
   * The index of a tree: its keys are the partIds of the attachment leaves; the entry under a
   * partId describes the last attachment leaf in document order that carries it; and when
   * partIds are distinct there is exactly one entry per attachment leaf, describing it.
   */
  lemma AttachmentsSpec(root: MimeNode)
    ensures Attachments(root).Keys == AttachmentIds(Leaves(root))
    ensures forall i :: 0 <= i < |Leaves(root)| && IsAttachment(Leaves(root)[i]) && IsLastWithId(Leaves(root), i) ==>
              Attachments(root)[Leaves(root)[i].partId.value] == Describe(Leaves(root)[i])
    ensures UniqueIds(Leaves(root)) ==>
              && |Attachments(root)| == |AttachmentLeaves(root)|
              && forall i :: 0 <= i < |Leaves(root)| && IsAttachment(Leaves(root)[i]) ==>
                   Attachments(root)[Leaves(root)[i].partId.value] == Describe(Leaves(root)[i])
  {
    var ls := Leaves(root);
    IndexNodeIsIndexLeaves(root, map[]);
    IndexLeavesContents(ls, map[]);
    if UniqueIds(ls) {
      AttachmentIdsCount(ls);
      assert |Attachments(root)| == |Attachments(root).Keys|;
    }
  }

  // ---------------------------------------------------------------- whole messages

  /** The header fields and top-level type of a message, without a body. */
  function ParseHeaders(m: RawMessage): (p: ParsedEmail)
    ensures p.id == m.id && p.threadId == m.threadId && p.snippet == m.snippet
    ensures p.subject == HeaderValue(m.payload.headers, "Subject")
    ensures p.from == HeaderValue(m.payload.headers, "From")
    ensures p.to == HeaderValue(m.payload.headers, "To")
    ensures p.date == HeaderValue(m.payload.headers, "Date")
    ensures p.mimeType == m.payload.root.mimeType && p.body == None
  {
    var hs := m.payload.headers;
    ParsedEmail(m.id, m.threadId, HeaderValue(hs, "Subject"), HeaderValue(hs, "From"),
                HeaderValue(hs, "To"), HeaderValue(hs, "Date"), m.snippet, m.payload.root.mimeType, None)
  }

  /**
   * `_parse_message(msg, parse_body)`: the header fields, plus, when asked for, the decoded text
   * of the first plain-text leaf. None when that text is not valid base64url or UTF-8.
   */
  function ParseMessage(m: RawMessage, includeBody: bool): (r: Option<ParsedEmail>)
    ensures !includeBody ==> r == Some(ParseHeaders(m))
    ensures r.Some? ==> r.value.(body := None) == ParseHeaders(m)
    ensures r.Some? && r.value.body.Some? ==>
              includeBody && FindBody(m.payload.root).Some?
              && DecodeText(FindBody(m.payload.root).value) == r.value.body
    ensures includeBody && FindBody(m.payload.root).None? ==> r == Some(ParseHeaders(m))
    ensures r.None? <==> includeBody && FindBody(m.payload.root).Some?
                         && DecodeText(FindBody(m.payload.root).value).None?
    ensures includeBody && FindBody(m.payload.root).Some? && DecodeText(FindBody(m.payload.root).value).Some? ==>
              r == Some(ParseHeaders(m).(body := DecodeText(FindBody(m.payload.root).value)))
  {
    var p := ParseHeaders(m);
    if !includeBody then Some(p)
    else
      match FindBody(m.payload.root)
      case None => Some(p)
      case Some(d) =>
        match DecodeText(d)
        case None => None
        case Some(text) => Some(p.(body := Some(text)))
  }

  /**
   * `get_email_by_id_with_attachments(id)`, given what the fetch returned (None: it raised).
   * A failed fetch or an undecodable body gives no email and an empty index.
   */
  function GetEmailWithAttachments(fetched: Option<RawMessage>): (r: (Option<ParsedEmail>, AttachmentIndex))
    ensures fetched.None? ==> r == (None, map[])
    ensures r.0.None? ==> r.1 == map[]
    ensures fetched.Some? ==>
              && r.0 == ParseMessage(fetched.value, true)
              && r.1 == (if r.0.Some? then Attachments(fetched.value.payload.root) else map[])
  {
    match fetched
    case None => (None, map[])
    case Some(m) =>
      match ParseMessage(m, true)
      case None => (None, map[])
      case Some(p) => (Some(p), Attachments(m.payload.root))
  }

  /**
   * A fetched message whose first plain-text leaf decodes (or which has none) gives its parsed
   * email, with that text as the body, and an index holding exactly its attachment partIds.
   */
  lemma GetEmailSuccess(m: RawMessage)
    requires FirstPlainText(Leaves(m.payload.root)).Some? ==> DecodeText(FirstPlainText(Leaves(m.payload.root)).value).Some?
    ensures var r := GetEmailWithAttachments(Some(m));
            && r.0.Some? && r.0.value.(body := None) == ParseHeaders(m)
            && (r.0.value.body.Some? <==> exists i :: 0 <= i < |Leaves(m.payload.root)| && IsPlainTextLeaf(Leaves(m.payload.root)[i]))
            && r.0.value.body == (match FirstPlainText(Leaves(m.payload.root)) case None => None case Some(d) => DecodeText(d))
            && r.1.Keys == AttachmentIds(Leaves(m.payload.root))
  {
    FindBodyIsFirst(m.payload.root);
    AttachmentsSpec(m.payload.root);
  }

  /** A tree without a plain-text leaf parses, body requested or not, to no `body` at all. */
  lemma NoPlainTextNoBody(m: RawMessage)
    requires forall i :: 0 <= i < |Leaves(m.payload.root)| ==> !IsPlainTextLeaf(Leaves(m.payload.root)[i])
    ensures ParseMessage(m, true) == Some(ParseHeaders(m))
    ensures ParseMessage(m, true).value.body.None? && ParseMessage(m, true).value.mimeType == m.payload.root.mimeType
  {
    FindBodyIsFirst(m.payload.root);
  }

  /** The body of a parsed message is the decoded text of the first plain-text leaf in document order. */
  lemma BodyIsFirstPlainText(m: RawMessage, i: int)
    requires 0 <= i < |Leaves(m.payload.root)| && IsPlainTextLeaf(Leaves(m.payload.root)[i])
    requires forall j :: 0 <= j < i ==> !IsPlainTextLeaf(Leaves(m.payload.root)[j])
    ensures var text := DecodeText(Leaves(m.payload.root)[i].body.data.value);
            ParseMessage(m, true) == if text.Some? then Some(ParseHeaders(m).(body := text)) else None
  {
    var ls := Leaves(m.payload.root);
    FindBodyIsFirst(m.payload.root);
    var k :| 0 <= k < |ls| && IsPlainTextLeaf(ls[k]) && FirstPlainText(ls).value == ls[k].body.data.value
             && forall j :: 0 <= j < k ==> !IsPlainTextLeaf(ls[j]);
    assert k == i;
  }

  // ---------------------------------------------------------------- queries

  /** One `{'id': ..., 'threadId': ...}` entry of a list response. */
  datatype MessageRef = MessageRef(id: string, threadId: string)

  /** The outcome of `users().messages().list()`: it raised, or it answered (maybe without `messages`). */
  datatype ListResponse = ListFailed | Listed(messages: Option<seq<MessageRef>>)

  /** The listed references; none for a failed list or a response without `messages`. */
  function ListedRefs(listing: ListResponse): seq<MessageRef> {
    if listing.Listed? && listing.messages.Some? then listing.messages.value else []
  }

  /** The ids of `refs`, in order. */
  function Ids(refs: seq<MessageRef>): (r: seq<string>)
    ensures |r| == |refs| && forall i :: 0 <= i < |refs| ==> r[i] == refs[i].id
  {
    seq(|refs|, i requires 0 <= i < |refs| => refs[i].id)
  }

  /**
   * `query_emails(query, max_results)`: fetches every listed id in turn from `mailbox` (an id
   * missing from it is a fetch that raises) and parses each without its body. `fetched` is
   * the sequence of ids fetched. A failed fetch abandons the query with no results.
   */
  method QueryEmails(listing: ListResponse, mailbox: map<string, RawMessage>)
    returns (emails: seq<ParsedEmail>, fetched: seq<string>)
    ensures var refs := ListedRefs(listing);
            AllFetchable(refs, mailbox) ==>
              && fetched == Ids(refs)
              && |emails| == |refs|
              && forall i :: 0 <= i < |refs| ==> emails[i] == ParseHeaders(mailbox[refs[i].id])
    ensures var refs := ListedRefs(listing);
            !AllFetchable(refs, mailbox) ==>
              && emails == []
              && exists k :: FirstUnfetchable(refs, mailbox, k) && fetched == Ids(refs)[..k + 1]
  {
    var refs := ListedRefs(listing);
    var i;
    emails, fetched, i := FetchWhileFound(refs, mailbox, ParseHeaders);
    if i < |refs| {
      // the fetch of a missing id raises, and the query gives up
      IdsSnoc(refs, i);
      fetched := fetched + [refs[i].id];
      emails := [];
      assert FirstUnfetchable(refs, mailbox, i);
    } else {
      assert Ids(refs)[..i] == Ids(refs);
    }
  }

  /**
   * The loop of `query_emails`: fetches the listed messages in order up to the first one
   * missing from `mailbox`, and applies `parse` to each.
   */
  method FetchWhileFound<T>(refs: seq<MessageRef>, mailbox: map<string, RawMessage>, parse: RawMessage -> T)
    returns (results: seq<T>, fetched: seq<string>, i: nat)
    ensures i <= |refs| && (i < |refs| ==> refs[i].id !in mailbox)
    ensures forall j :: 0 <= j < i ==> refs[j].id in mailbox
    ensures fetched == Ids(refs)[..i]
    ensures |results| == i && forall j :: 0 <= j < i ==> results[j] == parse(mailbox[refs[j].id])
  {
    results, fetched := [], [];
    i := 0;
    while i < |refs| && refs[i].id in mailbox
      invariant 0 <= i <= |refs|
      invariant fetched == Ids(refs)[..i]
      invariant forall j :: 0 <= j < i ==> refs[j].id in mailbox
      invariant |results| == i
      invariant forall j :: 0 <= j < i ==> results[j] == parse(mailbox[refs[j].id])
    {
      IdsSnoc(refs, i);
      fetched := fetched + [refs[i].id];
      results := results + [parse(mailbox[refs[i].id])];
      i := i + 1;
    }
  }

  /** Every listed id can be fetched. */
  predicate AllFetchable(refs: seq<MessageRef>, mailbox: map<string, RawMessage>) {
    forall i :: 0 <= i < |refs| ==> refs[i].id in mailbox
  }

  /** `k` is the first listed id that cannot be fetched. */
  predicate FirstUnfetchable(refs: seq<MessageRef>, mailbox: map<string, RawMessage>, k: int) {
    && 0 <= k < |refs| && refs[k].id !in mailbox
    && forall j :: 0 <= j < k ==> refs[j].id in mailbox
  }

  /** One more fetched id extends the prefix of ids by that id. */
  lemma IdsSnoc(refs: seq<MessageRef>, i: int)
    requires 0 <= i < |refs|
    ensures Ids(refs)[..i + 1] == Ids(refs)[..i] + [refs[i].id]
  {
  }
}
