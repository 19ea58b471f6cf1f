/**
 What the model gives on typical nginx access-log lines: a complete line, a line
 whose size is "-", lines that cannot be parsed, repeated lines and a log of blank lines.
 */
module Scenarios {
  import opened Wrappers
  import opened PyStrings
  import opened LogParser
  import opened Dedup
  import opened Loader

  const Client: string := "192.168.1.1"
  const Stamp: string := "10/Oct/2023:13:55:36 +0000"

  /**
   A typical nginx access-log line,
   `192.168.1.1 - - [10/Oct/2023:13:55:36 +0000] "GET /index.html?id=5 HTTP/1.1" 200 1024`.
   */
  const SampleLine: string := FormatLine(Client, Stamp, "GET", "/index.html?id=5", "HTTP/1.1", "200", "1024")

  /** The timestamp is stripped, has no brackets and, lacking `-`, no separator. */
  lemma {:induction false} StampFacts()
    ensures Stripped(Stamp) && '[' !in Stamp && ']' !in Stamp && !Contains(Stamp, Separator)
  {
    StampHasNoSeparator();
  }

  lemma {:induction false} StampHasNoSeparator()
    ensures !Contains(Stamp, Separator)
  {
    assert Separator[1] == '-';
    MissingCharNotContained(Stamp, Separator, 1);
  }

  lemma {:induction false} ClientIsPlain()
    ensures NoSpace(Client)
  {
  }

  lemma {:induction false} UrlIsPlain()
    ensures PlainToken("/index.html?id=5")
  {
  }

  lemma {:induction false} SampleQuery()
    ensures QueryOf("/index.html?id=5") == "id=5"
  {
    QuerySplit("/index.html", "id=5", "");
    assert "/index.html" + "?" + "id=5" + "" == "/index.html?id=5";
  }

  /**
   The sample line parses to its client, the instant `strptime` gives its timestamp,
   the method, the URL, the status and size tokens and the query `id=5`.
   */
  lemma {:induction false} SampleParses<T>(strptime: string -> Option<T>, t: T)
    requires strptime(Stamp) == Some(t)
    ensures ParseLine(SampleLine, strptime)
            == Parsed(Full(Client, t, "GET", "/index.html?id=5", "200", Token("1024"), "id=5"), None)
  {
    StampFacts();
    ClientIsPlain();
    UrlIsPlain();
    assert PlainToken("GET") && PlainToken("HTTP/1.1") && PlainToken("200") && PlainToken("1024");
    ParseFormatted(Client, Stamp, "GET", "/index.html?id=5", "HTTP/1.1", "200", "1024", strptime, t);
    SampleQuery();
  }

  /** A size of "-" becomes the integer 0 and a URL without `?` has an empty query. */
  lemma {:induction false} DashSizeParses<T>(strptime: string -> Option<T>, t: T)
    requires strptime(Stamp) == Some(t)
    ensures ParseLine(FormatLine(Client, Stamp, "POST", "/login", "HTTP/1.1", "302", "-"), strptime)
            == Parsed(Full(Client, t, "POST", "/login", "302", Zero, ""), None)
  {
    StampFacts();
    ClientIsPlain();
    DashTokens();
    ParseFormatted(Client, Stamp, "POST", "/login", "HTTP/1.1", "302", "-", strptime, t);
    LoginQuery();
  }

  lemma {:induction false} DashTokens()
    ensures PlainToken("POST") && PlainToken("/login") && PlainToken("HTTP/1.1") && PlainToken("302") && PlainToken("-")
  {
  }

  lemma {:induction false} LoginQuery()
    ensures QueryOf("/login") == "" && SizeOf("-") == Zero
  {
    assert '?' !in "/login";
  }

  /** The query is cut at a second `?`, and a trailing `?` gives an empty query. */
  lemma {:induction false} QueryCuts()
    ensures QueryOf("/a?x=1?y=2") == "x=1"
    ensures QueryOf("/a?") == ""
  {
    SecondMarkCuts();
    TrailingMarkEmpty();
  }

  lemma {:induction false} SecondMarkCuts()
    ensures QueryOf("/a?x=1?y=2") == "x=1"
  {
    QuerySplit("/a", "x=1", "?y=2");
    assert "/a" + "?" + "x=1" + "?y=2" == "/a?x=1?y=2";
  }

  lemma {:induction false} TrailingMarkEmpty()
    ensures QueryOf("/a?") == ""
  {
    QuerySplit("/a", "", "");
    assert "/a" + "?" + "" + "" == "/a?";
  }

  /** A blank line has no separator and yields an empty dictionary. */
  lemma {:induction false} BlankLineFails<T>(strptime: string -> Option<T>)
    ensures ParseLine("", strptime) == Parsed(Empty, Some(NoSeparator))
  {
    ParseLineFailures("", strptime);
  }

  /**
   Two unparsable lines yield two empty dictionaries, which are duplicates of each
   other: the frame keeps one of them next to the sample record.
   */
  lemma {:induction false} RepeatedRowsCollapse<T>(full: Record<T>)
    requires full.Full?
    ensures DropDuplicates([Empty, full, Empty, full]) == [Empty, full]
    ensures CountTrue(Duplicated([Empty, full, Empty, full])) == 2
  {
    var rows: seq<Record<T>> := [Empty, full, Empty, full];
    assert rows[..1] == [Empty] && rows[..1][..0] == [];
    assert DropDuplicates(rows[..1]) == [Empty];
    assert rows[..2] == [Empty, full] && rows[..2][..1] == rows[..1];
    assert DropDuplicates(rows[..2]) == [Empty, full];
    assert rows[..3] == [Empty, full, Empty] && rows[..3][..2] == rows[..2];
    assert DropDuplicates(rows[..3]) == [Empty, full];
    assert rows[..3][2] in rows[..2];
    assert rows[3] in rows[..3];
    DuplicateCount(rows);
  }

  /** A database that rejects one row still receives every other row, in order. */
  lemma {:induction false} OneRejectedRow(a: int, b: int, c: int)
    requires a != b && b != c && a != c
    ensures Load([], [a, b, c], Independent((r: int) => if r == b then Rejected("bad value") else Accepted))
            == Outcome([a, c], [InsertionFailure(b, "bad value")])
  {
    var judge := (r: int) => if r == b then Rejected("bad value") else Accepted;
    var rows := [a, b, c];
    Isolation([], rows, judge, 1, "bad value");
    assert [] + rows[..1] + rows[2..] == [a, c];
  }
}

/** What a whole run gives on a log of blank lines and on a log of client-only rows. */
module PipelineScenarios {
  import opened Wrappers
  import opened PyStrings
  import opened LogParser
  import opened Batch
  import opened Dedup
  import opened Loader
  import opened Pipeline
  import Scenarios

  /** A log of blank lines builds a frame without columns, so the duplicate check raises. */
  lemma {:induction false} BlankLogAborts<T>(strptime: string -> Option<T>)
    ensures Columnless(Records(StripLines(["", ""]), Parser(strptime)))
  {
    var lines := ["", ""];
    BlankRaisesEarly(strptime);
    assert forall i :: 0 <= i < |lines| ==> lines[i] == "";
    AbortsOnEarlyFailures(lines, strptime);
  }

  lemma {:induction false} BlankRaisesEarly<T>(strptime: string -> Option<T>)
    ensures RaisedBeforeAddress(ParseLine(Strip(""), strptime).error)
  {
    assert Strip("") == "";
    Scenarios.BlankLineFails(strptime);
  }

  /**
   A client-only row, left by a timestamp `strptime` rejects, makes a frame without a
   `Timestamp` column: the loop fails the row with `KeyError` and the database, however
   it would answer, is not called.
   */
  lemma {:induction false} AddressOnlyRowFails<T>(address: string, sink: Sink<Record<T>>)
    ensures var records: seq<Record<T>> := [AddressOnly(address)];
      Load([], Deduplicate(records), FrameSink(records, sink))
      == Outcome([], [InsertionFailure(AddressOnly(address), MissingTimestamp)])
  {
    var records: seq<Record<T>> := [AddressOnly(address)];
    DropDistinct(records);
    RejectAll([], records, MissingTimestamp);
  }
}
