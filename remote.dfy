/**
 * The remote branch of `CliDriver.processCmd`: the statement is executed on the
 * Hive server, its result is fetched in pages of `LINES_TO_FETCH` lines until a
 * page comes back short, every line is printed, the two kinds of failure are
 * mapped to response codes, and the client is cleaned up on every path.
 */
module RemoteMode {
  import opened Core

  /** `LINES_TO_FETCH`. */
  const LinesToFetch: nat := 40

  /** A `HiveServerException` with its error code, or a Thrift `TException`. */
  datatype Failure = ServerError(errorCode: int, message: string) | TransportError(message: string)

  /** What one `fetchN` call gives: some lines, or an exception. */
  datatype FetchReply = Page(lines: seq<string>) | FetchFailed(failure: Failure)

  /**
   * How the server answers one statement: `execute` may fail; the fetches give
   * `pages` in order and the empty page once those are used up; `clean` may fail
   * with a Thrift error message.
   */
  datatype Server = Server(execute: Option<Failure>, pages: seq<FetchReply>, clean: Option<string>)

  function PageAt(pages: seq<FetchReply>, k: nat): FetchReply {
    if k < |pages| then pages[k] else Page([])
  }

  /** What the fetch loop ends with: the lines printed, how many `fetchN` calls, and the failure that ended it. */
  datatype Fetched = Fetched(lines: seq<string>, fetches: nat, failure: Option<Failure>)

  /** The do-while loop from the `k`-th fetch on: fetch again exactly when the page just printed was full. */
  function FetchFrom(pages: seq<FetchReply>, k: nat): (r: Fetched)
    ensures r.fetches >= 1
    decreases |pages| - k
  {
    match PageAt(pages, k)
    case FetchFailed(f) => Fetched([], 1, Some(f))
    case Page(lines) =>
      if |lines| == LinesToFetch && k < |pages| then
        var rest := FetchFrom(pages, k + 1);
        Fetched(lines + rest.lines, rest.fetches + 1, rest.failure)
      else Fetched(lines, 1, None)
  }

  /** The response code and error line a failure of `execute` or `fetchN` leads to. */
  function Report(failure: Option<Failure>): (int, seq<string>) {
    match failure
    case None => (0, [])
    case Some(ServerError(c, m)) => if c != 0 then (c, ["[Hive Error]: " + m]) else (0, [])
    case Some(TransportError(m)) => (-10002, ["[Thrift Error]: " + m])
  }

  /** The line printed when `clean` fails. */
  function CleanReport(clean: Option<string>): seq<string> {
    if clean.Some? then ["[Thrift Error]: Hive server is not cleaned due to thrift exception: " + clean.value] else []
  }

  /** The lines printed, how many fetches were made, and the failure that ended the statement. */
  function RemoteFetched(server: Server): Fetched {
    if server.execute.Some? then Fetched([], 0, server.execute) else FetchFrom(server.pages, 0)
  }

  /** The remote branch as a whole. */
  function RemoteSpec(server: Server): Response {
    var f := RemoteFetched(server);
    var (code, err) := Report(f.failure);
    Response(Returned(code), f.lines, err + CleanReport(server.clean))
  }

  /**
   * The `finally` block: `clean` is called once more, and a failing `clean`
   * adds its line after what the statement printed to the error stream.
   */
  method Clean(server: Server, code: int, out: seq<string>, err: seq<string>, cleans: nat)
    returns (r: Response, cleaned: nat)
    ensures cleaned == cleans + 1
    ensures r == Response(Returned(code), out, err + CleanReport(server.clean))
  {
    cleaned := cleans + 1;
    r := Response(Returned(code), out, err + CleanReport(server.clean));
  }

  /**
   * The remote branch: `execute`, then the fetch loop, then `clean`. The try
   * block is left in one of three ways (a failing `execute`, a failing `fetchN`,
   * a short page), and each goes through the `finally` block. Besides the
   * response it returns how many times `fetchN` and `clean` were called.
   */
  method RunRemote(server: Server) returns (r: Response, fetches: nat, cleans: nat)
    ensures r == RemoteSpec(server)
    ensures fetches == RemoteFetched(server).fetches
    ensures cleans == 1
  {
    cleans := 0;
    fetches := 0;
    if server.execute.Some? {
      var (code, err) := Report(server.execute);
      r, cleans := Clean(server, code, [], err, cleans);
      return;
    }
    var out: seq<string> := [];
    var more := true;
    while more
      invariant fetches <= |server.pages| + 1
      invariant more ==> fetches <= |server.pages|
      invariant more ==> FetchFrom(server.pages, 0) ==
                         var rest := FetchFrom(server.pages, fetches);
                         Fetched(out + rest.lines, fetches + rest.fetches, rest.failure)
      invariant !more ==> FetchFrom(server.pages, 0) == Fetched(out, fetches, None)
      decreases |server.pages| + 1 - fetches, more
    {
      var reply := PageAt(server.pages, fetches);
      fetches := fetches + 1;
      match reply {
        case FetchFailed(f) =>
          assert out + [] == out;
          var (code, err) := Report(Some(f));
          r, cleans := Clean(server, code, out, err, cleans);
          return;
        case Page(lines) =>
          out := out + lines;
          more := |lines| == LinesToFetch;
      }
    }
    r, cleans := Clean(server, 0, out, [], cleans);
  }

  // ---------------------------------------------------------------------------
  // Properties
  // ---------------------------------------------------------------------------

  /** The pages a server hands out for a result of `rows`: full pages, then one short (maybe empty) page. */
  function ResultPages(rows: seq<string>): (r: seq<FetchReply>)
    decreases |rows|
  {
    if |rows| < LinesToFetch then [Page(rows)]
    else [Page(rows[..LinesToFetch])] + ResultPages(rows[LinesToFetch..])
  }

  /**
   * For a result of `rows`, every row is printed in order, and the number of
   * fetches is one more than the number of full pages: `40·k` and `40·k + r`
   * rows (`0 < r < 40`) both take `k + 1` fetches.
   */
  lemma {:induction false} FetchAllRows(rows: seq<string>, pre: seq<FetchReply>)
    ensures FetchFrom(pre + ResultPages(rows), |pre|) ==
            Fetched(rows, |rows| / LinesToFetch + 1, None)
    decreases |rows|
  {
    var pages := pre + ResultPages(rows);
    assert PageAt(pages, |pre|) == ResultPages(rows)[0];
    if |rows| >= LinesToFetch {
      var pre' := pre + [Page(rows[..LinesToFetch])];
      assert pages == pre' + ResultPages(rows[LinesToFetch..]);
      FetchAllRows(rows[LinesToFetch..], pre');
      assert rows[..LinesToFetch] + rows[LinesToFetch..] == rows;
    }
  }

  /** A statement whose result is `rows`, with no failure anywhere. */
  lemma RemoteResultPrinted(rows: seq<string>)
    ensures RemoteSpec(Server(None, ResultPages(rows), None)) == Response(Returned(0), rows, [])
    ensures RemoteFetched(Server(None, ResultPages(rows), None)).fetches == |rows| / LinesToFetch + 1
  {
    FetchAllRows(rows, []);
    assert [] + ResultPages(rows) == ResultPages(rows);
  }

  /**
   * The loop fetches again exactly when the previous page was full: every page
   * before the last one fetched had 40 lines, and the last one fetched failed or
   * did not have 40 lines.
   */
  lemma {:induction false} FetchStopsAtShortPage(pages: seq<FetchReply>, k: nat)
    ensures var r := FetchFrom(pages, k);
            (forall j :: k <= j < k + r.fetches - 1 ==> PageAt(pages, j).Page? && |PageAt(pages, j).lines| == LinesToFetch) &&
            (PageAt(pages, k + r.fetches - 1).FetchFailed? || |PageAt(pages, k + r.fetches - 1).lines| != LinesToFetch)
    decreases |pages| - k
  {
    var reply := PageAt(pages, k);
    if reply.Page? && |reply.lines| == LinesToFetch && k < |pages| {
      FetchStopsAtShortPage(pages, k + 1);
    }
  }

  /**
   * The error mapping: a server error with code 0 is a normal end and prints
   * nothing; a nonzero server code is the response code, reported as a Hive
   * error; a transport error is -10002. A failing `clean` adds a line but never
   * changes the code.
   */
  lemma ErrorMapping(server: Server)
    ensures var f := RemoteFetched(server).failure; var r := RemoteSpec(server);
            (f.None? ==> r.outcome == Returned(0)) &&
            (f.Some? && f.value.ServerError? && f.value.errorCode == 0 ==>
              r.outcome == Returned(0) && r.err == CleanReport(server.clean)) &&
            (f.Some? && f.value.ServerError? && f.value.errorCode != 0 ==>
              r.outcome == Returned(f.value.errorCode) &&
              r.err == ["[Hive Error]: " + f.value.message] + CleanReport(server.clean)) &&
            (f.Some? && f.value.TransportError? ==>
              r.outcome == Returned(-10002) &&
              r.err == ["[Thrift Error]: " + f.value.message] + CleanReport(server.clean))
    ensures RemoteSpec(server).outcome == RemoteSpec(server.(clean := None)).outcome
  {
  }

  /** A failing `execute` fetches nothing and prints no lines. */
  lemma ExecuteFailureFetchesNothing(server: Server)
    requires server.execute.Some?
    ensures RemoteFetched(server) == Fetched([], 0, server.execute)
    ensures RemoteSpec(server).out == []
  {
  }
}
