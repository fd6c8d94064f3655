/** The duplicate check run for every fetched launch ticket: the ticket's
    title is spliced into a GraphQL string literal after escaping its double
    quotes, the tracker answers with the other issues of that title, and the
    first of them, if any, is reported. */
module Duplicates {
  import opened Wrappers
  import opened Text

  // ----- GraphQL string literals -----

  predicate IsLineTerminator(c: char) {
    c == '\n' || c == '\r'
  }

  /** The character an escape sequence `\c` stands for (section 2.9.4 of the
      GraphQL specification, October 2021 edition); `\u` escapes are not
      modelled and count as invalid. */
  function Unescape(c: char): Option<char> {
    if c == '"' then Some('"')
    else if c == '\\' then Some('\\')
    else if c == '/' then Some('/')
    else if c == 'b' then Some(8 as char)
    else if c == 'f' then Some(12 as char)
    else if c == 'n' then Some('\n')
    else if c == 'r' then Some('\r')
    else if c == 't' then Some('\t')
    else None
  }

  /** Reads the body of a GraphQL string literal whose opening quote has
      already been read: the value it denotes and the text after the closing
      quote, or `None` when the literal is malformed or never closed. */
  function ReadString(s: string): Option<(string, string)>
    decreases |s|
  {
    if |s| == 0 then None
    else if s[0] == '"' then Some(("", s[1..]))
    else if s[0] == '\\' then
      if |s| < 2 then None
      else
        match Unescape(s[1])
        case None => None
        case Some(c) =>
          match ReadString(s[2..])
          case None => None
          case Some(p) => Some(([c] + p.0, p.1))
    else if IsLineTerminator(s[0]) then None
    else
      match ReadString(s[1..])
      case None => None
      case Some(p) => Some(([s[0]] + p.0, p.1))
  }

  // ----- escaping a title -----

  /** Escaping a string one character at a time. */
  function EscapeEach(t: string, esc: char -> string): string {
    if |t| == 0 then "" else esc(t[0]) + EscapeEach(t[1..], esc)
  }

  function QuoteOnly(c: char): string {
    if c == '"' then "\\\"" else [c]
  }

  /** The escaping `find_linear_duplicate` applies before splicing the title
      into its query: every double quote gets a backslash in front, and
      nothing else changes. */
  function EscapeQuotes(t: string): string {
    Replace(t, "\"", "\\\"")
  }

  /** `EscapeQuotes` escapes each double quote and copies every other
      character. */
  lemma {:induction false} EscapeQuotesEach(t: string)
    ensures EscapeQuotes(t) == EscapeEach(t, QuoteOnly)
    decreases |t|
  {
    if |t| > 0 {
      EscapeQuotesEach(t[1..]);
      assert t[..1] == [t[0]];
    }
  }

  /** The escaping a GraphQL string literal needs: quotes, backslashes and
      line breaks each become a two-character escape sequence. */
  function EscapeChar(c: char): string {
    if c == '"' then "\\\""
    else if c == '\\' then "\\\\"
    else if c == '\n' then "\\n"
    else if c == '\r' then "\\r"
    else [c]
  }

  function EscapeTitle(t: string): string {
    EscapeEach(t, EscapeChar)
  }

  /** Reading back one escaped character. */
  lemma ReadEscapedChar(c: char, tail: string)
    ensures ReadString(EscapeChar(c) + tail) ==
      match ReadString(tail)
      case None => None
      case Some(p) => Some(([c] + p.0, p.1))
  {
    var s := EscapeChar(c) + tail;
    if |EscapeChar(c)| == 2 {
      assert s[2..] == tail;
    } else {
      assert s[1..] == tail;
    }
  }

  /** A correctly escaped title, followed by the closing quote, reads back as
      exactly the title, and the rest of the query is left unread. */
  lemma {:induction false} ReadEscapedTitle(t: string, rest: string)
    ensures ReadString(EscapeTitle(t) + "\"" + rest) == Some((t, rest))
    decreases |t|
  {
    if |t| == 0 {
      assert EscapeTitle(t) + "\"" + rest == ['"'] + rest;
    } else {
      var tail := EscapeTitle(t[1..]) + "\"" + rest;
      ReadEscapedTitle(t[1..], rest);
      assert EscapeTitle(t) + "\"" + rest == EscapeChar(t[0]) + tail;
      ReadEscapedChar(t[0], tail);
      assert [t[0]] + t[1..] == t;
    }
  }

  /** On a title without backslashes or line breaks the escaping as written
      agrees with the correct one, so the query carries the title intact. */
  lemma {:induction false} EscapeQuotesPlainTitle(t: string, rest: string)
    requires forall i :: 0 <= i < |t| ==> t[i] != '\\' && !IsLineTerminator(t[i])
    ensures EscapeQuotes(t) == EscapeTitle(t)
    ensures ReadString(EscapeQuotes(t) + "\"" + rest) == Some((t, rest))
    decreases |t|
  {
    EscapeQuotesEach(t);
    EscapeEachPlain(t);
    ReadEscapedTitle(t, rest);
  }

  lemma {:induction false} EscapeEachPlain(t: string)
    requires forall i :: 0 <= i < |t| ==> t[i] != '\\' && !IsLineTerminator(t[i])
    ensures EscapeEach(t, QuoteOnly) == EscapeEach(t, EscapeChar)
    decreases |t|
  {
    if |t| > 0 {
      assert t[0] != '\\' && !IsLineTerminator(t[0]);
      EscapeEachPlain(t[1..]);
    }
  }

  /** The escaping as written is wrong for a title that is a single
      backslash: the backslash and the closing quote read as an escaped
      quote, so whatever follows, the literal never denotes the title. */
  lemma EscapeQuotesBackslash(rest: string)
    ensures ReadString(EscapeQuotes("\\") + "\"" + rest) != Some(("\\", rest))
  {
    EscapeQuotesEach("\\");
    var s := EscapeQuotes("\\") + "\"" + rest;
    assert s == ['\\', '"'] + rest;
    assert s[2..] == rest;
    match ReadString(rest)
    case None =>
    case Some(p) =>
      assert ReadString(s) == Some((['"'] + p.0, p.1));
  }

  // ----- picking the duplicate -----

  /** An issue as the tracker returns it. */
  datatype Issue = Issue(id: string, identifier: string, title: string)

  predicate IsDuplicate(x: Issue, issueId: string, title: string) {
    x.id != issueId && x.title == title
  }

  /** The tracker's answer to the duplicate query: the issues other than
      `issueId` whose title equals `title`, in the tracker's order. */
  function DuplicateNodes(issues: seq<Issue>, issueId: string, title: string): (nodes: seq<Issue>)
    ensures forall x :: x in nodes <==> x in issues && IsDuplicate(x, issueId, title)
  {
    if |issues| == 0 then []
    else
      var rest := DuplicateNodes(issues[1..], issueId, title);
      assert forall x :: x in issues <==> x == issues[0] || x in issues[1..];
      if IsDuplicate(issues[0], issueId, title) then [issues[0]] + rest else rest
  }

  /** `find_linear_duplicate` once the tracker has answered: the id and
      identifier of the first node, or none. */
  function FirstNode(nodes: seq<Issue>): Option<(string, string)> {
    if |nodes| == 0 then None else Some((nodes[0].id, nodes[0].identifier))
  }

  function FindDuplicate(issues: seq<Issue>, issueId: string, title: string): Option<(string, string)> {
    FirstNode(DuplicateNodes(issues, issueId, title))
  }

  /** A duplicate is reported exactly when another issue has the same title,
      and the one reported is the first such issue in the tracker's order. */
  lemma {:induction false} FindDuplicateFirst(issues: seq<Issue>, issueId: string, title: string) returns (i: nat)
    ensures FindDuplicate(issues, issueId, title).None? <==>
      forall j :: 0 <= j < |issues| ==> !IsDuplicate(issues[j], issueId, title)
    ensures FindDuplicate(issues, issueId, title).Some? ==>
      && i < |issues| && IsDuplicate(issues[i], issueId, title)
      && FindDuplicate(issues, issueId, title) == Some((issues[i].id, issues[i].identifier))
      && forall j :: 0 <= j < i ==> !IsDuplicate(issues[j], issueId, title)
  {
    var nodes := DuplicateNodes(issues, issueId, title);
    if |issues| == 0 {
      i := 0;
    } else if IsDuplicate(issues[0], issueId, title) {
      i := 0;
    } else {
      var k := FindDuplicateFirst(issues[1..], issueId, title);
      assert nodes == DuplicateNodes(issues[1..], issueId, title);
      i := k + 1;
      forall j | 0 <= j < |issues| && j != 0
        ensures IsDuplicate(issues[j], issueId, title) == IsDuplicate(issues[1..][j - 1], issueId, title)
      {
      }
    }
  }

  // ----- the query as sent -----

  /** The query text after the spliced title, from the quote that closes the
      title's literal to the end of the query. */
  const QueryTail := "\" }\n" + QueryEnd

  /** The last two lines of the query. */
  const QueryEnd := "          }) { nodes { id identifier } }\n        }"

  /** Why the tracker cannot read the title out of the query: the literal is
      malformed or never closed, or it closes before the quote the code
      meant to close it with. */
  datatype QueryError = MalformedTitle | TitleEndsEarly

  /** The title the tracker reads from the query when `escaped` is spliced
      into the title literal. */
  function SentTitle(escaped: string): Result<string, QueryError> {
    match ReadString(escaped + QueryTail)
    case None => Err(MalformedTitle)
    case Some(p) => if p.1 == QueryTail[1..] then Ok(p.0) else Err(TitleEndsEarly)
  }

  /** `find_linear_duplicate` as written: the title is escaped by
      `EscapeQuotes`, and the tracker searches for the title it reads from
      the query. A query whose title it cannot read ends in an exception
      (the error response, or a reply without `data`), modelled as `Err`. */
  function FindLinearDuplicate(issues: seq<Issue>, issueId: string, gameTitle: string): Result<Option<(string, string)>, QueryError> {
    var title :- SentTitle(EscapeQuotes(gameTitle));
    Ok(FindDuplicate(issues, issueId, title))
  }

  /** A correctly escaped title always reaches the tracker intact. */
  lemma SentTitleEscaped(t: string)
    ensures SentTitle(EscapeTitle(t)) == Ok(t)
  {
    var rest := QueryTail[1..];
    assert QueryTail == "\"" + rest;
    assert EscapeTitle(t) + QueryTail == EscapeTitle(t) + "\"" + rest;
    ReadEscapedTitle(t, rest);
  }

  /** `find_linear_duplicate` with the escaping corrected: for every title,
      the tracker searches for exactly the ticket's title. */
  function FindEscapedDuplicate(issues: seq<Issue>, issueId: string, gameTitle: string): (r: Result<Option<(string, string)>, QueryError>)
    ensures r == Ok(FindDuplicate(issues, issueId, gameTitle))
  {
    SentTitleEscaped(gameTitle);
    match SentTitle(EscapeTitle(gameTitle))
    case Ok(title) => Ok(FindDuplicate(issues, issueId, title))
    case Err(e) => Err(e)
  }

  /** On a title without backslashes or line breaks the code as written
      searches for exactly the ticket's title. */
  lemma FindLinearPlain(issues: seq<Issue>, issueId: string, gameTitle: string)
    requires forall i :: 0 <= i < |gameTitle| ==> gameTitle[i] != '\\' && !IsLineTerminator(gameTitle[i])
    ensures FindLinearDuplicate(issues, issueId, gameTitle) == Ok(FindDuplicate(issues, issueId, gameTitle))
  {
    EscapeQuotesPlainTitle(gameTitle, QueryTail[1..]);
    SentTitleEscaped(gameTitle);
  }

  /** The title `\` makes the code as written send a query whose title
      literal runs into the line break after it, so the search fails. */
  lemma FindLinearBackslash(issues: seq<Issue>, issueId: string)
    ensures FindLinearDuplicate(issues, issueId, "\\") == Err(MalformedTitle)
  {
    EscapeQuotesEach("\\");
    assert EscapeQuotes("\\") == "\\" by {
      assert "\\"[1..] == "";
    }
    var s := EscapeQuotes("\\") + QueryTail;
    assert s[..5] == ['\\', '"', ' ', '}', '\n'];
    assert ReadString(s[4..]) == None;
    assert ReadString(s[3..]) == None by { assert s[3..][1..] == s[4..]; }
    assert ReadString(s[2..]) == None by { assert s[2..][1..] == s[3..]; }
  }

  /** The title `\\` (two backslashes) makes the code as written search
      silently for the title `\`. */
  lemma FindLinearDoubleBackslash(issues: seq<Issue>, issueId: string)
    ensures FindLinearDuplicate(issues, issueId, "\\\\") == Ok(FindDuplicate(issues, issueId, "\\"))
  {
    EscapeQuotesEach("\\\\");
    assert EscapeEach("\\\\", QuoteOnly) == "\\\\" by {
      assert "\\\\"[1..] == "\\";
      assert "\\"[1..] == "";
    }
    var s := EscapeQuotes("\\\\") + QueryTail;
    assert s[2..] == QueryTail;
    assert QueryTail[0] == '"';
    assert ReadString(QueryTail) == Some(("", QueryTail[1..]));
  }
}
