/**
 * `check_email`: search the inbox with the criteria (or `ALL`) and fetch the
 * last identifier the search returns. The IMAP session is given as the
 * replies the server makes, and the model records the SEARCH and FETCH
 * commands the client issues.
 */
module Locator {
  import opened Wrappers
  import opened Text
  import opened Mime

  /** A server reply, or an exception raised by the client library (a dropped connection, a `BAD` response). */
  datatype Reply<T> = Replied(reply: T) | Raised

  /** The status of `SEARCH` and the first line of its data: identifiers separated by spaces. */
  datatype SearchReply = SearchReply(status: string, data: string)

  /** The status of `FETCH` and the message parsed from its data. */
  datatype FetchReply = FetchReply(status: string, message: Message)

  /**
   * What the server does during one `check_email` session: `ready` is false
   * when connecting or logging in raised, or when selecting `INBOX` failed.
   * A refused `select` raises nothing itself, but it leaves the client
   * unable to search, so the `SEARCH` raises before anything is sent.
   */
  datatype Session = Session(ready: bool, search: Reply<SearchReply>, fetch: Reply<FetchReply>)

  datatype Command = Search(key: string) | Fetch(id: string, items: string)

  datatype CheckResult =
    | Found(message: Message)
    | NoMatch
    | SearchFailed(status: string)
    | FetchFailed(status: string)
    | Faulted

  /** The outcome of one check and the commands it issued, in order. */
  datatype Lookup = Lookup(result: CheckResult, issued: seq<Command>)

  /** The key actually sent: the criteria when it is a non-empty string, `ALL` otherwise. */
  function SearchKey(criteria: Option<string>): (r: string)
    ensures r != ""
    ensures Truthy(criteria) ==> r == criteria.value
    ensures !Truthy(criteria) ==> r == "ALL"
  {
    if Truthy(criteria) then criteria.value else "ALL"
  }

  /** The client writes every command argument as ASCII; any other character raises before the command is sent. */
  predicate Ascii(s: string)
  {
    forall i :: 0 <= i < |s| ==> s[i] as int < 128
  }

  /** The identifiers `data[0].split()` yields. */
  function Ids(r: SearchReply): seq<string>
  {
    Words(r.data)
  }

  /** The session is up and the search key can be written, so `SEARCH` goes out. */
  predicate Searched(criteria: Option<string>, s: Session)
  {
    s.ready && Ascii(SearchKey(criteria))
  }

  /** The search was sent, succeeded and matched at least one message. */
  predicate Matched(criteria: Option<string>, s: Session)
  {
    Searched(criteria, s) && s.search.Replied? && s.search.reply.status == "OK" && Ids(s.search.reply) != []
  }

  function CheckEmail(criteria: Option<string>, s: Session): (l: Lookup)
    ensures l.issued == [] <==> !Searched(criteria, s)
    ensures Searched(criteria, s) ==> l.issued[0] == Search(SearchKey(criteria))
    ensures |l.issued| <= 2
    ensures |l.issued| == 2 <==> Matched(criteria, s)
    ensures Matched(criteria, s) ==> var ids := Ids(s.search.reply); l.issued[1] == Fetch(ids[|ids| - 1], "(RFC822)")
    ensures l.result.Found? <==> Matched(criteria, s) && s.fetch.Replied? && s.fetch.reply.status == "OK"
    ensures l.result.Found? ==> l.result.message == s.fetch.reply.message
    ensures l.result.NoMatch? <==> Searched(criteria, s) && s.search.Replied? && s.search.reply.status == "OK" && Ids(s.search.reply) == []
    ensures l.result.SearchFailed? <==> Searched(criteria, s) && s.search.Replied? && s.search.reply.status != "OK"
    ensures l.result.FetchFailed? <==> Matched(criteria, s) && s.fetch.Replied? && s.fetch.reply.status != "OK"
    ensures l.result.Faulted? <==> !Searched(criteria, s) || s.search.Raised? || (Matched(criteria, s) && s.fetch.Raised?)
  {
    if !s.ready || !Ascii(SearchKey(criteria)) then Lookup(Faulted, [])
    else
      var search := [Search(SearchKey(criteria))];
      match s.search
      case Raised => Lookup(Faulted, search)
      case Replied(SearchReply(status, data)) =>
        if status != "OK" then Lookup(SearchFailed(status), search)
        else
          var ids := Words(data);
          if ids == [] then Lookup(NoMatch, search)
          else
            var issued := search + [Fetch(ids[|ids| - 1], "(RFC822)")];
            match s.fetch
            case Raised => Lookup(Faulted, issued)
            case Replied(FetchReply(fstatus, message)) =>
              if fstatus != "OK" then Lookup(FetchFailed(fstatus), issued)
              else Lookup(Found(message), issued)
  }

  /** What `check_email` returns: the message, or `None` on every other outcome. */
  function Returned(l: Lookup): (r: Option<Message>)
    ensures r.Some? <==> l.result.Found?
    ensures r.Some? ==> r.value == l.result.message
  {
    if l.result.Found? then Some(l.result.message) else None
  }

  /** A search answering "3 7 9" fetches message 9. */
  lemma FetchesLastOfThree(criteria: Option<string>, fetch: Reply<FetchReply>)
    requires Ascii(SearchKey(criteria))
    ensures CheckEmail(criteria, Session(true, Replied(SearchReply("OK", "3 7 9")), fetch)).issued
         == [Search(SearchKey(criteria)), Fetch("9", "(RFC822)")]
  {
    ThreeIds();
    var s := Session(true, Replied(SearchReply("OK", "3 7 9")), fetch);
    assert Ids(s.search.reply) == ["3", "7", "9"];
  }

  lemma ThreeIds()
    ensures Words("3 7 9") == ["3", "7", "9"]
  {
    assert "3 7 9" == "3" + [' '] + ("7" + [' '] + "9");
    WordsSep("3", "7" + [' '] + "9", ' ');
    WordsSep("7", "9", ' ');
    OneWord("3");
    OneWord("7");
    OneWord("9");
  }

  lemma OneWord(w: string)
    requires w != [] && NoSpace(w)
    ensures Words(w) == [w]
  {
    WordsCons(w, []);
    assert w + [] == w;
  }

  /** An empty search answer is "not found" and no FETCH is issued. */
  lemma EmptySearchFetchesNothing(criteria: Option<string>, fetch: Reply<FetchReply>)
    requires Ascii(SearchKey(criteria))
    ensures CheckEmail(criteria, Session(true, Replied(SearchReply("OK", "")), fetch))
         == Lookup(NoMatch, [Search(SearchKey(criteria))])
  {
  }

  /** No criteria searches `ALL`. */
  lemma NoCriteriaSearchesAll(s: Session)
    requires s.ready
    ensures CheckEmail(None, s).issued[0] == Search("ALL")
  {
    assert SearchKey(None) == "ALL";
    assert Ascii("ALL") by {
      assert "ALL"[0] == 'A' && "ALL"[1] == 'L' && "ALL"[2] == 'L';
    }
  }

  /** Criteria holding a character outside ASCII never reach the server: the check fails before `SEARCH`. */
  lemma NonAsciiNotSent(criteria: Option<string>, s: Session, i: nat)
    requires criteria.Some? && i < |criteria.value| && criteria.value[i] as int >= 128
    ensures CheckEmail(criteria, s) == Lookup(Faulted, [])
  {
    assert Truthy(criteria);
  }
}
