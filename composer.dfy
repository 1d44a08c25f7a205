/**
 * The outbound direction: a MIME text message is built from a header list and a body,
 * serialised, and carried as the base64url `raw` field of a draft or a sent message;
 * replies take their addressing, subject, threading and quoted text from a parsed original.
 */
module Composer {
  import opened Wrappers
  import opened Mime
  import Parser

  // ---------------------------------------------------------------- joining and splitting

  /** `sep.join(xs)`. */
  function Join(xs: seq<string>, sep: char): string {
    if xs == [] then []
    else if |xs| == 1 then xs[0]
    else xs[0] + [sep] + Join(xs[1..], sep)
  }

  /** `s.split(sep)`: always at least one piece, and no piece contains `sep`. */
  function Split(s: string, sep: char): (r: seq<string>)
    ensures |r| >= 1
    ensures forall i :: 0 <= i < |r| ==> sep !in r[i]
  {
    if s == [] then [[]]
    else
      var rest := Split(s[1..], sep);
      if s[0] == sep then [[]] + rest
      else [[s[0]] + rest[0]] + rest[1..]
  }

  /** Splitting undoes joining, for a non-empty list of pieces that do not contain the separator. */
  lemma {:induction false} SplitJoin(xs: seq<string>, sep: char)
    requires |xs| >= 1 && forall i :: 0 <= i < |xs| ==> sep !in xs[i]
    ensures Split(Join(xs, sep), sep) == xs
    decreases |xs|, |xs[0]|
  {
    var x := xs[0];
    if x == [] {
      if |xs| > 1 {
        SplitJoin(xs[1..], sep);
        assert Join(xs, sep) == [sep] + Join(xs[1..], sep);
        assert ([sep] + Join(xs[1..], sep))[1..] == Join(xs[1..], sep);
        assert [x] + xs[1..] == xs;
      }
    } else {
      var ys := [x[1..]] + xs[1..];
      assert ys[1..] == xs[1..];
      assert sep !in ys[0] by { assert forall c :: c in x[1..] ==> c in x; }
      SplitJoin(ys, sep);
      assert Join(xs, sep) == [x[0]] + Join(ys, sep) by {
        if |xs| > 1 {
          assert x + [sep] + Join(xs[1..], sep) == [x[0]] + (x[1..] + [sep] + Join(xs[1..], sep));
        }
      }
      assert ([x[0]] + Join(ys, sep))[1..] == Join(ys, sep);
      assert [x[0]] + x[1..] == x;
      assert [[x[0]] + x[1..]] + xs[1..] == xs;
    }
  }

  /** Joining undoes splitting. */
  lemma {:induction false} JoinSplit(s: string, sep: char)
    ensures Join(Split(s, sep), sep) == s
  {
    if s != [] {
      var rest := Split(s[1..], sep);
      JoinSplit(s[1..], sep);
      if s[0] == sep {
        assert Split(s, sep)[1..] == rest;
      } else {
        var xs := Split(s, sep);
        assert xs[1..] == rest[1..];
        if |rest| > 1 {
          assert Join(rest, sep) == rest[0] + [sep] + Join(rest[1..], sep);
        }
      }
      assert [s[0]] + s[1..] == s;
    }
  }

  // ---------------------------------------------------------------- serialisation

  /** One header line: `Name: value` and a newline. */
  function HeaderLine(h: Header): string {
    h.name + ": " + h.value + "\n"
  }

  /** The header block: the lines in list order. */
  function HeaderBlock(hs: seq<Header>): string {
    if hs == [] then [] else HeaderLine(hs[0]) + HeaderBlock(hs[1..])
  }

  /** The message text: its header lines, an empty line, and the body verbatim. */
  function Serialize(hs: seq<Header>, body: string): string {
    HeaderBlock(hs) + "\n" + body
  }

  /** Headers that serialise unambiguously: names without `:` or newline, values without newline. */
  predicate WellFormedHeaders(hs: seq<Header>) {
    forall i :: 0 <= i < |hs| ==> ':' !in hs[i].name && '\n' !in hs[i].name && '\n' !in hs[i].value
  }

  /** The position of the first `c` in `s`, or `|s|` when there is none. */
  function Find(s: string, c: char): (k: nat)
    ensures k <= |s| && (k < |s| ==> s[k] == c)
    ensures forall j :: 0 <= j < k ==> s[j] != c
  {
    if s == [] then 0 else if s[0] == c then 0 else 1 + Find(s[1..], c)
  }

  /** Reads `Name: value` back, splitting at the first colon, which must be followed by a space. */
  function ParseHeaderLine(line: string): Option<Header> {
    var k := Find(line, ':');
    if k + 1 < |line| && line[k + 1] == ' ' then Some(Header(line[..k], line[k + 2..])) else None
  }

  /** Reads a message text back into its header list and body. */
  function Unserialize(s: string): Option<(seq<Header>, string)>
    decreases |s|
  {
    if s == [] then None
    else if s[0] == '\n' then Some(([], s[1..]))
    else
      var k := Find(s, '\n');
      if k == |s| then None
      else
        match ParseHeaderLine(s[..k])
        case None => None
        case Some(h) =>
          match Unserialize(s[k + 1..])
          case None => None
          case Some(rest) => Some(([h] + rest.0, rest.1))
  }

  /** Find stops where the first `c` is. */
  lemma FindAt(a: string, c: char, b: string)
    requires c !in a
    ensures Find(a + [c] + b, c) == |a|
  {
    var s := a + [c] + b;
    assert s[|a|] == c;
    assert forall j :: 0 <= j < |a| ==> s[j] == a[j];
  }

  /** A well-formed header's line reads back to the header. */
  lemma ParseHeaderLineOf(h: Header)
    requires ':' !in h.name
    ensures ParseHeaderLine(h.name + ": " + h.value) == Some(h)
  {
    var line := h.name + ": " + h.value;
    FindAt(h.name, ':', " " + h.value);
    assert line == h.name + [':'] + (" " + h.value);
    assert line[..|h.name|] == h.name && line[|h.name| + 2..] == h.value;
  }

  /** Reading a text that starts with a non-empty line without newlines. */
  lemma UnserializeLine(line: string, rest: string)
    requires '\n' !in line && line != []
    ensures Unserialize(line + "\n" + rest)
            == match ParseHeaderLine(line)
               case None => None
               case Some(h) =>
                 match Unserialize(rest)
                 case None => None
                 case Some(r) => Some(([h] + r.0, r.1))
  {
    var s := line + "\n" + rest;
    FindAt(line, '\n', rest);
    assert s[0] == line[0];
    assert s[..|line|] == line;
    assert s[|line| + 1..] == rest;
  }

  /** A serialised message reads back to exactly its headers and body. */
  lemma {:induction false} UnserializeSerialize(hs: seq<Header>, body: string)
    requires WellFormedHeaders(hs)
    ensures Unserialize(Serialize(hs, body)) == Some((hs, body))
  {
    var s := Serialize(hs, body);
    if hs == [] {
      assert s == "\n" + body;
      assert s[1..] == body;
    } else {
      var h := hs[0];
      var line := h.name + ": " + h.value;
      var s' := Serialize(hs[1..], body);
      SerializeCons(hs, body);
      assert s == line + "\n" + s';
      assert WellFormedHeaders(hs[1..]) by {
        forall i | 0 <= i < |hs[1..]| ensures ':' !in hs[1..][i].name && '\n' !in hs[1..][i].name && '\n' !in hs[1..][i].value {
          assert hs[1..][i] == hs[i + 1];
        }
      }
      assert '\n' !in line;
      UnserializeLine(line, s');
      ParseHeaderLineOf(h);
      UnserializeSerialize(hs[1..], body);
      assert [h] + hs[1..] == hs;
    }
  }

  /** `t` occurs in `s` at position `k`. */
  predicate OccursAt(s: string, t: string, k: int) {
    0 <= k && k + |t| <= |s| && s[k..k + |t|] == t
  }

  /** `t in s` for strings. */
  predicate Contains(s: string, t: string) {
    exists k :: 0 <= k <= |s| && OccursAt(s, t, k)
  }

  /** `s.endswith(t)`. */
  predicate EndsWith(s: string, t: string) {
    |t| <= |s| && s[|s| - |t|..] == t
  }

  /** An occurrence survives putting text in front. */
  lemma OccursAfter(pre: string, s: string, t: string, k: int)
    requires OccursAt(s, t, k)
    ensures OccursAt(pre + s, t, |pre| + k)
  {
    assert (pre + s)[|pre| + k..|pre| + k + |t|] == s[k..k + |t|];
  }

  /** The message text shows every header as a `Name: value` line. */
  lemma {:induction false} SerializeShowsLine(hs: seq<Header>, body: string, i: int)
    requires 0 <= i < |hs|
    ensures Contains(Serialize(hs, body), hs[i].name + ": " + hs[i].value)
  {
    var t := hs[i].name + ": " + hs[i].value;
    var s' := Serialize(hs[1..], body);
    SerializeCons(hs, body);
    if i == 0 {
      assert HeaderLine(hs[0]) + s' == t + ("\n" + s');
      assert OccursAt(t + ("\n" + s'), t, 0);
    } else {
      SerializeShowsLine(hs[1..], body, i - 1);
      var k :| 0 <= k <= |s'| && OccursAt(s', t, k);
      OccursAfter(HeaderLine(hs[0]), s', t, k);
    }
  }

  /** The message text of a non-empty header list: its first line, then the text of the rest. */
  lemma SerializeCons(hs: seq<Header>, body: string)
    requires hs != []
    ensures Serialize(hs, body) == HeaderLine(hs[0]) + Serialize(hs[1..], body)
  {
  }

  /** The message text shows every header as a `Name: value` line and ends with the body. */
  lemma SerializeShows(hs: seq<Header>, body: string, i: int)
    requires 0 <= i < |hs|
    ensures Contains(Serialize(hs, body), hs[i].name + ": " + hs[i].value)
    ensures EndsWith(Serialize(hs, body), body)
  {
    SerializeShowsLine(hs, body, i);
    var s := Serialize(hs, body);
    assert s[|s| - |body|..] == body;
  }

  /** The `raw` field: the message text, UTF-8 encoded, then base64url encoded. */
  function Raw(hs: seq<Header>, body: string): (raw: string)
    ensures DecodeText(raw) == Some(Serialize(hs, body))
  {
    DecodeEncodeText(Serialize(hs, body));
    EncodeText(Serialize(hs, body))
  }

  // ---------------------------------------------------------------- transport calls

  /** A call the service makes to the provider, with the arguments the tests inspect. */
  datatype Call =
    | SendCall(raw: string, threadId: string)
    | DraftCall(raw: string, messageThreadId: Option<string>)
    | DeleteCall(draftId: string)

  // ---------------------------------------------------------------- drafts

  /** The arguments of `create_draft(to, subject, body, cc=None)`; no `cc` is the empty list. */
  datatype ComposeRequest = ComposeRequest(to: string, subject: string, body: string, cc: seq<string>)

  /** The headers a draft is given: `to`, `subject`, and `cc` (comma-joined) when there is a cc list. */
  function DraftHeaders(req: ComposeRequest): (hs: seq<Header>)
    ensures Parser.HeaderValue(hs, "to") == Some(req.to)
    ensures Parser.HeaderValue(hs, "subject") == Some(req.subject)
    ensures Parser.HeaderValue(hs, "cc") == if req.cc == [] then None else Some(Join(req.cc, ','))
    ensures |hs| == if req.cc == [] then 2 else 3
  {
    var hs := [Header("to", req.to), Header("subject", req.subject)]
              + (if req.cc == [] then [] else [Header("cc", Join(req.cc, ','))]);
    Parser.HeaderValueAt(hs, "to", 0);
    Parser.HeaderValueAt(hs, "subject", 1);
    if req.cc != [] then Parser.HeaderValueAt(hs, "cc", 2); hs else hs
  }

  /**
   * `create_draft`: the drafts call it makes and what it returns, given the provider's answer
   * (None: the call raised, and so does the result).
   */
  function CreateDraft<R>(req: ComposeRequest, answer: Option<R>): (r: (Call, Option<R>))
    ensures r.0.DraftCall? && r.0.messageThreadId == None
    ensures r.0.raw == EncodeText(Serialize(DraftHeaders(req), req.body))
    ensures DecodeText(r.0.raw) == Some(Serialize(DraftHeaders(req), req.body))
    ensures r.1 == answer
  {
    (DraftCall(Raw(DraftHeaders(req), req.body), None), answer)
  }

  /** `delete_draft(id)`: the delete call it makes; true unless the call raised. */
  function DeleteDraft(draftId: string, raised: bool): (r: (Call, bool))
    ensures r.0 == DeleteCall(draftId) && (r.1 <==> !raised)
  {
    (DeleteCall(draftId), !raised)
  }

  // ---------------------------------------------------------------- replies

  /** `s.replace('\n', with)`. */
  function ReplaceNewlines(s: string, with: string): string {
    if s == [] then []
    else (if s[0] == '\n' then with else [s[0]]) + ReplaceNewlines(s[1..], with)
  }

  /** The quoted original: `"> " + s.replace('\n', '\n> ')`. */
  function Quote(s: string): string {
    "> " + ReplaceNewlines(s, "\n> ")
  }

  /** Every line of `xs` with `p` in front. */
  function Prefixed(p: string, xs: seq<string>): (r: seq<string>)
    ensures |r| == |xs|
  {
    if xs == [] then [] else [p + xs[0]] + Prefixed(p, xs[1..])
  }

  /** Joining a list with a given first item. */
  lemma JoinCons(a: string, xs: seq<string>, sep: char)
    ensures Join([a] + xs, sep) == a + (if xs == [] then [] else [sep] + Join(xs, sep))
  {
    assert ([a] + xs)[1..] == xs;
  }

  /** Prefixing a list with a given first item. */
  lemma PrefixedCons(p: string, x: string, xs: seq<string>)
    ensures Prefixed(p, [x] + xs) == [p + x] + Prefixed(p, xs)
  {
    assert ([x] + xs)[1..] == xs;
  }

  /** A common prefix cancels. */
  lemma CancelPrefix(p: string, a: string, b: string)
    requires p + a == p + b
    ensures a == b
  {
    assert (p + a)[|p|..] == a && (p + b)[|p|..] == b;
  }

  /** Newline replacement on a text with a given first character. */
  lemma ReplaceCons(c: char, tl: string, with: string)
    ensures ReplaceNewlines([c] + tl, with) == (if c == '\n' then with else [c]) + ReplaceNewlines(tl, with)
  {
    assert ([c] + tl)[1..] == tl;
  }

  /** Splitting a text with a given first character. */
  lemma SplitCons(c: char, tl: string, sep: char)
    ensures var rest := Split(tl, sep);
            Split([c] + tl, sep) == if c == sep then [[]] + rest else [[c] + rest[0]] + rest[1..]
  {
    assert ([c] + tl)[1..] == tl;
  }

  /** The concatenation step behind PrefixChar. */
  lemma ShiftChar(p: string, c: char, rep: string, r0: string, t: string)
    requires p + rep == (p + r0) + t
    ensures p + ([c] + rep) == (p + ([c] + r0)) + t
  {
    assert p + rep == p + (r0 + t);
    CancelPrefix(p, rep, r0 + t);
  }

  /** The concatenation step behind PrefixNewline. */
  lemma ShiftNewline(p: string, rep: string, j: string)
    requires p + rep == j
    ensures p + (("\n" + p) + rep) == (p + []) + (['\n'] + j)
  {
    assert p + [] == p;
  }

  /** PrefixEveryLine when the text starts with a newline. */
  lemma PrefixNewline(p: string, tl: string)
    requires p + ReplaceNewlines(tl, "\n" + p) == Join(Prefixed(p, Split(tl, '\n')), '\n')
    ensures p + ReplaceNewlines("\n" + tl, "\n" + p) == Join(Prefixed(p, Split("\n" + tl, '\n')), '\n')
  {
    var rest := Split(tl, '\n');
    var rep := ReplaceNewlines(tl, "\n" + p);
    ReplaceCons('\n', tl, "\n" + p);
    SplitCons('\n', tl, '\n');
    PrefixedCons(p, [], rest);
    JoinCons(p + [], Prefixed(p, rest), '\n');
    ShiftNewline(p, rep, Join(Prefixed(p, rest), '\n'));
  }

  /** PrefixEveryLine when the text starts with another character. */
  lemma PrefixChar(p: string, c: char, tl: string)
    requires c != '\n'
    requires p + ReplaceNewlines(tl, "\n" + p) == Join(Prefixed(p, Split(tl, '\n')), '\n')
    ensures p + ReplaceNewlines([c] + tl, "\n" + p) == Join(Prefixed(p, Split([c] + tl, '\n')), '\n')
  {
    var rest := Split(tl, '\n');
    var rep := ReplaceNewlines(tl, "\n" + p);
    var r0, rt := rest[0], rest[1..];
    assert rest == [r0] + rt;
    ReplaceCons(c, tl, "\n" + p);
    SplitCons(c, tl, '\n');
    var t := if Prefixed(p, rt) == [] then [] else ['\n'] + Join(Prefixed(p, rt), '\n');
    PrefixedCons(p, r0, rt);
    JoinCons(p + r0, Prefixed(p, rt), '\n');
    PrefixedCons(p, [c] + r0, rt);
    JoinCons(p + ([c] + r0), Prefixed(p, rt), '\n');
    ShiftChar(p, c, rep, r0, t);
  }

  /** Replacing each newline by a newline and `p`, after a leading `p`, prefixes every line with `p`. */
  lemma {:induction false} PrefixEveryLine(p: string, s: string)
    ensures p + ReplaceNewlines(s, "\n" + p) == Join(Prefixed(p, Split(s, '\n')), '\n')
  {
    if s == [] {
      assert Prefixed(p, [[]]) == [p + []];
      assert p + [] == p;
    } else {
      PrefixEveryLine(p, s[1..]);
      assert s == [s[0]] + s[1..];
      if s[0] == '\n' {
        PrefixNewline(p, s[1..]);
      } else {
        PrefixChar(p, s[0], s[1..]);
      }
    }
  }

  /** The quoted block is the original with `"> "` in front of each of its lines. */
  lemma QuoteEveryLine(s: string)
    ensures Quote(s) == Join(Prefixed("> ", Split(s, '\n')), '\n')
  {
    PrefixEveryLine("> ", s);
    assert "\n" + "> " == "\n> ";
  }

  /** A reply can be composed only when the original has a non-empty `from`. */
  predicate HasOriginator(original: Parser.ParsedEmail) {
    original.from.Some? && original.from.value != ""
  }

  /** The text of a reply: its own body, a blank line, the attribution line and the quoted original. */
  function ReplyText(original: Parser.ParsedEmail, replyBody: string): (t: string)
    requires HasOriginator(original)
    ensures t == replyBody + "\n\n" + "On " + original.date.GetOr("") + ", " + original.from.value + " wrote:\n"
                 + Join(Prefixed("> ", Split(original.body.GetOr(""), '\n')), '\n')
  {
    QuoteEveryLine(original.body.GetOr(""));
    replyBody + "\n\n"
    + "On " + original.date.GetOr("") + ", " + original.from.value + " wrote:\n"
    + Quote(original.body.GetOr(""))
  }

  /** The headers of a reply: `To`, `Subject`, `Cc` when there is a cc list, `In-Reply-To`, `References`. */
  function ReplyHeaders(original: Parser.ParsedEmail, cc: seq<string>): (hs: seq<Header>)
    requires HasOriginator(original)
    ensures Parser.HeaderValue(hs, "To") == original.from
    ensures Parser.HeaderValue(hs, "Subject") == Some("Re: " + original.subject.GetOr(""))
    ensures Parser.HeaderValue(hs, "Cc") == if cc == [] then None else Some(Join(cc, ','))
    ensures Parser.HeaderValue(hs, "In-Reply-To") == Some(original.id)
    ensures Parser.HeaderValue(hs, "References") == Some(original.id)
    ensures |hs| == if cc == [] then 4 else 5
  {
    var ccs := if cc == [] then [] else [Header("Cc", Join(cc, ','))];
    var hs := [Header("To", original.from.value), Header("Subject", "Re: " + original.subject.GetOr(""))]
              + ccs + [Header("In-Reply-To", original.id), Header("References", original.id)];
    ReplyHeadersLookup(hs, ccs, cc);
    hs
  }

  /** The lookups behind ReplyHeaders' contract, one header at a time. */
  lemma ReplyHeadersLookup(hs: seq<Header>, ccs: seq<Header>, cc: seq<string>)
    requires ccs == if cc == [] then [] else [Header("Cc", Join(cc, ','))]
    requires |hs| == 4 + |ccs| && hs[2..2 + |ccs|] == ccs
    requires hs[0].name == "To" && hs[1].name == "Subject"
    requires hs[2 + |ccs|].name == "In-Reply-To" && hs[3 + |ccs|].name == "References"
    ensures Parser.HeaderValue(hs, "To") == Some(hs[0].value)
    ensures Parser.HeaderValue(hs, "Subject") == Some(hs[1].value)
    ensures Parser.HeaderValue(hs, "Cc") == if cc == [] then None else Some(Join(cc, ','))
    ensures Parser.HeaderValue(hs, "In-Reply-To") == Some(hs[2 + |ccs|].value)
    ensures Parser.HeaderValue(hs, "References") == Some(hs[3 + |ccs|].value)
  {
    Parser.HeaderValueAt(hs, "To", 0);
    Parser.HeaderValueAt(hs, "Subject", 1);
    ReplyCcLookup(hs, ccs, cc);
    ReplyThreadLookup(hs, ccs, cc);
  }

  /** The `In-Reply-To` and `References` lookups of ReplyHeadersLookup. */
  lemma ReplyThreadLookup(hs: seq<Header>, ccs: seq<Header>, cc: seq<string>)
    requires ccs == if cc == [] then [] else [Header("Cc", Join(cc, ','))]
    requires |hs| == 4 + |ccs| && hs[2..2 + |ccs|] == ccs
    requires hs[0].name == "To" && hs[1].name == "Subject"
    requires hs[2 + |ccs|].name == "In-Reply-To" && hs[3 + |ccs|].name == "References"
    ensures Parser.HeaderValue(hs, "In-Reply-To") == Some(hs[2 + |ccs|].value)
    ensures Parser.HeaderValue(hs, "References") == Some(hs[3 + |ccs|].value)
  {
    var k := 2 + |ccs|;
    forall j | 0 <= j < k + 1 ensures hs[j].name != "In-Reply-To" || j == k
      ensures hs[j].name != "References"
    {
      if 2 <= j < k { assert hs[j] == ccs[j - 2]; }
    }
    Parser.HeaderValueAt(hs, "In-Reply-To", k);
    Parser.HeaderValueAt(hs, "References", k + 1);
  }

  /** The `Cc` lookup of ReplyHeadersLookup. */
  lemma ReplyCcLookup(hs: seq<Header>, ccs: seq<Header>, cc: seq<string>)
    requires ccs == if cc == [] then [] else [Header("Cc", Join(cc, ','))]
    requires |hs| == 4 + |ccs| && hs[2..2 + |ccs|] == ccs
    requires hs[0].name == "To" && hs[1].name == "Subject"
    requires hs[2 + |ccs|].name == "In-Reply-To" && hs[3 + |ccs|].name == "References"
    ensures Parser.HeaderValue(hs, "Cc") == if cc == [] then None else Some(Join(cc, ','))
  {
    if cc != [] {
      assert hs[2] == ccs[0];
      Parser.HeaderValueAt(hs, "Cc", 2);
    } else {
      assert forall j :: 0 <= j < |hs| ==> hs[j].name != "Cc";
    }
  }

  /**
   * `create_reply(original, reply_body, send, cc)`: the call it makes, if any, and what it returns,
   * given the provider's answer (None: the call raised). Without an originator no call is made.
   */
  function CreateReply<R>(original: Parser.ParsedEmail, replyBody: string, send: bool,
                          cc: seq<string>, answer: Option<R>): (r: (Option<Call>, Option<R>))
    ensures r.0.None? <==> !HasOriginator(original)
    ensures r.0.None? ==> r.1.None?
    ensures r.0.Some? ==>
              && r.1 == answer
              && (if send then r.0.value.SendCall? && r.0.value.threadId == original.threadId
                  else r.0.value.DraftCall? && r.0.value.messageThreadId == Some(original.threadId))
              && DecodeText(r.0.value.raw) == Some(Serialize(ReplyHeaders(original, cc), ReplyText(original, replyBody)))
  {
    if !HasOriginator(original) then (None, None)
    else
      var raw := Raw(ReplyHeaders(original, cc), ReplyText(original, replyBody));
      (Some(if send then SendCall(raw, original.threadId) else DraftCall(raw, Some(original.threadId))), answer)
  }
}
