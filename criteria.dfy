/**
 * The IMAP SEARCH key built from the command-line filter (section 6.4.4 of
 * RFC 3501): `SUBJECT "<text>"`, `FROM "<text>"` and `UNSEEN`, in that order,
 * bare when there is one of them and as one parenthesised list (an implicit
 * AND) when there are several. No filter means no key, and the search then
 * uses `ALL`.
 *
 * A reading of the key back into a filter (`Parse`, `Meaning`) is the partner
 * that shows the key says exactly what the filter says. The text of a filter
 * goes between the double quotes verbatim, with no escaping, so that holds
 * only for text without a double quote; `QuoteInTextCollides` shows what
 * happens otherwise.
 */
module Criteria {
  import opened Wrappers
  import opened Text

  /** The `--subject`, `--from` and `--unseen` arguments. */
  datatype Filter = Filter(subject: Option<string>, sender: Option<string>, unseen: bool)

  /** One search key of the three kinds the tool emits. */
  datatype Key = Subject(text: string) | From(text: string) | Unseen

  /** The keys the filter contributes, in the fixed order subject, sender, unseen; empty text contributes nothing. */
  function Keys(f: Filter): seq<Key>
  {
    (if Truthy(f.subject) then [Subject(f.subject.value)] else [])
    + (if Truthy(f.sender) then [From(f.sender.value)] else [])
    + (if f.unseen then [Unseen] else [])
  }

  function Render(k: Key): string
  {
    match k
    case Subject(t) => "SUBJECT \"" + t + "\""
    case From(t) => "FROM \"" + t + "\""
    case Unseen => "UNSEEN"
  }

  function RenderAll(ks: seq<Key>): (parts: seq<string>)
    ensures |parts| == |ks|
    ensures forall i :: 0 <= i < |ks| ==> parts[i] == Render(ks[i])
  {
    if ks == [] then [] else [Render(ks[0])] + RenderAll(ks[1..])
  }

  /** The search criteria `main` passes to `check_email`; `None` when no filter is given. */
  function Build(f: Filter): (r: Option<string>)
    ensures r.None? <==> !Truthy(f.subject) && !Truthy(f.sender) && !f.unseen
    ensures r.Some? ==> r.value != "" && (r.value[0] == '(' <==> |Keys(f)| >= 2)
  {
    var parts := RenderAll(Keys(f));
    if |parts| == 0 then None
    else if |parts| == 1 then Some(parts[0])
    else Some("(" + Join(parts, " ") + ")")
  }

  // ---------------------------------------------------------------------
  // Reading a criteria string back into a filter

  predicate QuoteFree(t: string)
  {
    '"' !in t
  }

  /** Both texts of the filter are free of double quotes. */
  predicate Quotable(f: Filter)
  {
    (f.subject.Some? ==> QuoteFree(f.subject.value)) && (f.sender.Some? ==> QuoteFree(f.sender.value))
  }

  /** The filter with empty texts made absent: what the key actually selects on. */
  function Normalize(f: Filter): Filter
  {
    Filter(if Truthy(f.subject) then f.subject else None,
           if Truthy(f.sender) then f.sender else None,
           f.unseen)
  }

  /** The text before the first double quote, and what follows that quote. */
  function UpToQuote(s: string): (r: Option<(string, string)>)
    ensures r.Some? ==> |r.value.1| < |s|
  {
    if s == [] then None
    else if s[0] == '"' then Some(([], s[1..]))
    else match UpToQuote(s[1..])
      case None => None
      case Some((t, rest)) => Some(([s[0]] + t, rest))
  }

  /** One key at the front of `s`, and the rest of `s`. */
  function ParseKey(s: string): (r: Option<(Key, string)>)
    ensures r.Some? ==> |r.value.1| < |s|
  {
    if |s| >= 6 && s[..6] == "UNSEEN" then Some((Unseen, s[6..]))
    else if |s| >= 9 && s[..9] == "SUBJECT \"" then
      match UpToQuote(s[9..])
      case None => None
      case Some((t, rest)) => Some((Subject(t), rest))
    else if |s| >= 6 && s[..6] == "FROM \"" then
      match UpToQuote(s[6..])
      case None => None
      case Some((t, rest)) => Some((From(t), rest))
    else None
  }

  /** A non-empty list of keys separated by single spaces. */
  function ParseKeys(s: string): Option<seq<Key>>
    decreases |s|
  {
    match ParseKey(s)
    case None => None
    case Some((k, rest)) =>
      if rest == [] then Some([k])
      else if rest[0] != ' ' then None
      else match ParseKeys(rest[1..])
        case None => None
        case Some(ks) => Some([k] + ks)
  }

  /** The filter a key list in canonical order stands for; `None` when the list is not in that order. */
  function FilterOf(ks: seq<Key>): Option<Filter>
  {
    var (subject, ks1) := if |ks| > 0 && ks[0].Subject? && ks[0].text != "" then (Some(ks[0].text), ks[1..]) else (None, ks);
    var (sender, ks2) := if |ks1| > 0 && ks1[0].From? && ks1[0].text != "" then (Some(ks1[0].text), ks1[1..]) else (None, ks1);
    var (unseen, ks3) := if |ks2| > 0 && ks2[0].Unseen? then (true, ks2[1..]) else (false, ks2);
    if ks3 == [] then Some(Filter(subject, sender, unseen)) else None
  }

  /** The filter a criteria string stands for: one bare key, or two or more in one pair of parentheses. */
  function Parse(s: string): Option<Filter>
  {
    if |s| >= 2 && s[0] == '(' && s[|s| - 1] == ')' then
      match ParseKeys(s[1..|s| - 1])
      case Some(ks) => if |ks| >= 2 then FilterOf(ks) else None
      case None => None
    else
      match ParseKeys(s)
      case Some(ks) => if |ks| == 1 then FilterOf(ks) else None
      case None => None
  }

  /** What `check_email` searches for given the criteria: no criteria means `ALL`, the empty filter. */
  function Meaning(criteria: Option<string>): Option<Filter>
  {
    match criteria
    case None => Some(Filter(None, None, false))
    case Some(s) => Parse(s)
  }

  lemma {:induction false} UpToQuoteOf(t: string, rest: string)
    requires QuoteFree(t)
    ensures UpToQuote(t + "\"" + rest) == Some((t, rest))
  {
    if t != [] {
      assert (t + "\"" + rest)[1..] == t[1..] + "\"" + rest;
      UpToQuoteOf(t[1..], rest);
      assert [t[0]] + t[1..] == t;
    } else {
      assert t + "\"" + rest == "\"" + rest;
    }
  }

  predicate KeyQuoteFree(k: Key)
  {
    !k.Unseen? ==> QuoteFree(k.text)
  }

  lemma ParseKeyRender(k: Key, rest: string)
    requires KeyQuoteFree(k)
    ensures ParseKey(Render(k) + rest) == Some((k, rest))
  {
    match k
    case Unseen =>
      var s := Render(k) + rest;
      assert s[..6] == "UNSEEN" && s[6..] == rest;
    case Subject(t) => ParseSubject(t, rest);
    case From(t) => ParseFrom(t, rest);
  }

  lemma ParseSubject(t: string, rest: string)
    requires QuoteFree(t)
    ensures ParseKey(Render(Subject(t)) + rest) == Some((Subject(t), rest))
  {
    var s := Render(Subject(t)) + rest;
    assert s[..6] != "UNSEEN" by { assert s[0] == 'S'; }
    assert s[..9] == "SUBJECT \"";
    assert s[9..] == t + "\"" + rest;
    UpToQuoteOf(t, rest);
  }

  lemma ParseFrom(t: string, rest: string)
    requires QuoteFree(t)
    ensures ParseKey(Render(From(t)) + rest) == Some((From(t), rest))
  {
    var s := Render(From(t)) + rest;
    assert s[..6] != "UNSEEN" by { assert s[0] == 'F'; }
    assert !(|s| >= 9 && s[..9] == "SUBJECT \"") by { assert s[0] == 'F'; }
    assert s[..6] == "FROM \"";
    assert s[6..] == t + "\"" + rest;
    UpToQuoteOf(t, rest);
  }

  lemma {:induction false} ParseKeysOfJoin(ks: seq<Key>)
    requires |ks| >= 1
    requires forall i :: 0 <= i < |ks| ==> KeyQuoteFree(ks[i])
    ensures ParseKeys(Join(RenderAll(ks), " ")) == Some(ks)
  {
    var parts := RenderAll(ks);
    if |ks| == 1 {
      ParseKeyRender(ks[0], []);
      assert Render(ks[0]) + [] == Render(ks[0]);
      assert Join(parts, " ") == Render(ks[0]);
      assert ks == [ks[0]];
    } else {
      var tail := Join(parts[1..], " ");
      assert Join(parts, " ") == Render(ks[0]) + (" " + tail);
      ParseKeyRender(ks[0], " " + tail);
      assert (" " + tail)[1..] == tail;
      assert parts[1..] == RenderAll(ks[1..]);
      ParseKeysOfJoin(ks[1..]);
      assert ks == [ks[0]] + ks[1..];
    }
  }

  lemma FilterOfKeys(f: Filter)
    ensures FilterOf(Keys(f)) == Some(Normalize(f))
  {
  }

  /**
   * Reading the built criteria back gives the filter it was built from, with
   * empty texts dropped: the keys appear in the fixed order, each exactly
   * once, bare when alone and parenthesised when several.
   */
  lemma RoundTrip(f: Filter)
    requires Quotable(f)
    ensures Meaning(Build(f)) == Some(Normalize(f))
  {
    var ks := Keys(f);
    FilterOfKeys(f);
    if |ks| >= 1 {
      assert forall i :: 0 <= i < |ks| ==> KeyQuoteFree(ks[i]);
      ParseKeysOfJoin(ks);
      var parts := RenderAll(ks);
      if |ks| == 1 {
        assert Join(parts, " ") == parts[0];
        assert parts[0][0] != '(';
      } else {
        var s := "(" + Join(parts, " ") + ")";
        assert s[1..|s| - 1] == Join(parts, " ");
      }
    }
  }

  /** For quote-free text, different filters give different criteria. */
  lemma Injective(f: Filter, g: Filter)
    requires Quotable(f) && Quotable(g)
    requires Build(f) == Build(g)
    ensures Normalize(f) == Normalize(g)
  {
    RoundTrip(f);
    RoundTrip(g);
  }

  /**
   * With a double quote in the text, two different filters produce the same
   * criteria: a subject that itself ends in `" FROM "` followed by more text
   * reads, once quoted, exactly like a shorter subject and a sender.
   */
  lemma QuoteInTextCollides(a: string, b: string, c: string)
    requires a != "" && c != ""
    ensures var m := "\" FROM \"";
            var f := Filter(Some(a + m + b), Some(c), false);
            var g := Filter(Some(a), Some(b + m + c), false);
            Normalize(f) != Normalize(g) && Build(f) == Build(g)
  {
    var m := "\" FROM \"";
    var f := Filter(Some(a + m + b), Some(c), false);
    var g := Filter(Some(a), Some(b + m + c), false);
    assert |a + m + b| != |a|;
    var pf := RenderAll(Keys(f));
    var pg := RenderAll(Keys(g));
    assert Keys(f) == [Subject(a + m + b), From(c)];
    assert Keys(g) == [Subject(a), From(b + m + c)];
    assert Join(pf, " ") == ("SUBJECT \"" + (a + m + b) + "\"") + " " + ("FROM \"" + c + "\"");
    assert Join(pg, " ") == ("SUBJECT \"" + a + "\"") + " " + ("FROM \"" + (b + m + c) + "\"");
    Regroup("SUBJECT \"", a, b, c);
  }

  /** The two readings of one criteria string, regrouped around the `" FROM "` in the middle. */
  lemma Regroup(p: string, a: string, b: string, c: string)
    ensures var m := "\" FROM \"";
            (p + (a + m + b) + "\"") + " " + ("FROM \"" + c + "\"")
            == (p + a + "\"") + " " + ("FROM \"" + (b + m + c) + "\"")
  {
    var m := "\" FROM \"";
    assert "\"" + " " + "FROM \"" == m;
    calc {
      (p + (a + m + b) + "\"") + " " + ("FROM \"" + c + "\"");
      p + a + m + b + ("\"" + " " + "FROM \"") + c + "\"";
      p + a + ("\"" + " " + "FROM \"") + b + m + c + "\"";
      (p + a + "\"") + " " + ("FROM \"" + (b + m + c) + "\"");
    }
  }

  /** A subject, when given, is always sent as the first clause, right after the opening parenthesis if there is one. */
  lemma SubjectClauseFirst(f: Filter)
    requires Truthy(f.subject)
    ensures Build(f).Some?
    ensures var off := if |Keys(f)| >= 2 then 1 else 0;
            var clause := Render(Subject(f.subject.value));
            off + |clause| <= |Build(f).value| && Build(f).value[off..off + |clause|] == clause
  {
    var parts := RenderAll(Keys(f));
    var clause := Render(Subject(f.subject.value));
    assert Keys(f)[0] == Subject(f.subject.value);
    assert parts[0] == clause;
    if |parts| >= 2 {
      var joined := Join(parts, " ");
      assert clause <= joined;
      var key := "(" + joined + ")";
      assert Build(f) == Some(key);
      assert key[1..1 + |clause|] == joined[..|clause|];
    }
  }

  /** No filter gives no criteria; one filter gives its key alone, with no parentheses. */
  lemma ExactNoneOrOne(t: string, u: string)
    requires t != "" && u != ""
    ensures Build(Filter(None, None, false)) == None
    ensures Build(Filter(Some(""), Some(""), false)) == None
    ensures Build(Filter(Some(t), None, false)) == Some("SUBJECT \"" + t + "\"")
    ensures Build(Filter(None, Some(u), false)) == Some("FROM \"" + u + "\"")
    ensures Build(Filter(None, None, true)) == Some("UNSEEN")
  {
  }

  /** Two filters give both keys, in order, separated by one space, in one pair of parentheses. */
  lemma ExactTwo(t: string, u: string)
    requires t != "" && u != ""
    ensures Build(Filter(Some(t), Some(u), false)) == Some("(" + "SUBJECT \"" + t + "\"" + " " + "FROM \"" + u + "\"" + ")")
    ensures Build(Filter(Some(t), None, true)) == Some("(" + "SUBJECT \"" + t + "\"" + " " + "UNSEEN" + ")")
    ensures Build(Filter(None, Some(u), true)) == Some("(" + "FROM \"" + u + "\"" + " " + "UNSEEN" + ")")
  {
    SubjectAndFrom(t, u);
    SubjectAndUnseen(t);
    FromAndUnseen(u);
  }

  lemma SubjectAndFrom(t: string, u: string)
    requires t != "" && u != ""
    ensures Build(Filter(Some(t), Some(u), false)) == Some("(" + "SUBJECT \"" + t + "\"" + " " + "FROM \"" + u + "\"" + ")")
  {
    var st, fu := "SUBJECT \"" + t + "\"", "FROM \"" + u + "\"";
    PairOutput(Filter(Some(t), Some(u), false), st, fu);
    assert "(" + st + " " + fu + ")" == "(" + "SUBJECT \"" + t + "\"" + " " + "FROM \"" + u + "\"" + ")";
  }

  lemma SubjectAndUnseen(t: string)
    requires t != ""
    ensures Build(Filter(Some(t), None, true)) == Some("(" + "SUBJECT \"" + t + "\"" + " " + "UNSEEN" + ")")
  {
    var st := "SUBJECT \"" + t + "\"";
    PairOutput(Filter(Some(t), None, true), st, "UNSEEN");
    assert "(" + st + " " + "UNSEEN" + ")" == "(" + "SUBJECT \"" + t + "\"" + " " + "UNSEEN" + ")";
  }

  lemma FromAndUnseen(u: string)
    requires u != ""
    ensures Build(Filter(None, Some(u), true)) == Some("(" + "FROM \"" + u + "\"" + " " + "UNSEEN" + ")")
  {
    var fu := "FROM \"" + u + "\"";
    PairOutput(Filter(None, Some(u), true), fu, "UNSEEN");
    assert "(" + fu + " " + "UNSEEN" + ")" == "(" + "FROM \"" + u + "\"" + " " + "UNSEEN" + ")";
  }

  lemma PairOutput(f: Filter, x: string, y: string)
    requires RenderAll(Keys(f)) == [x, y]
    ensures Build(f) == Some("(" + x + " " + y + ")")
  {
    var parts := RenderAll(Keys(f));
    assert parts[1..] == [y];
    assert Join(parts, " ") == x + " " + y;
    assert |parts| == 2;
    assert Build(f) == Some("(" + Join(parts, " ") + ")");
    assert "(" + (x + " " + y) + ")" == "(" + x + " " + y + ")";
  }

  /** All three filters give the three keys in the order subject, sender, unseen. */
  lemma ExactThree(t: string, u: string)
    requires t != "" && u != ""
    ensures Build(Filter(Some(t), Some(u), true))
         == Some("(" + "SUBJECT \"" + t + "\"" + " " + "FROM \"" + u + "\"" + " " + "UNSEEN" + ")")
  {
    var st, fu := "SUBJECT \"" + t + "\"", "FROM \"" + u + "\"";
    var all := [st, fu, "UNSEEN"];
    assert Keys(Filter(Some(t), Some(u), true)) == [Subject(t), From(u), Unseen];
    assert RenderAll([Subject(t), From(u), Unseen]) == all;
    assert all[1..] == [fu, "UNSEEN"] && all[1..][1..] == ["UNSEEN"];
    assert Join(all[1..], " ") == fu + " " + "UNSEEN";
    assert Join(all, " ") == st + " " + (fu + " " + "UNSEEN");
    assert Build(Filter(Some(t), Some(u), true)) == Some("(" + (st + " " + (fu + " " + "UNSEEN")) + ")");
    assert "(" + (st + " " + (fu + " " + "UNSEEN")) + ")"
        == "(" + "SUBJECT \"" + t + "\"" + " " + "FROM \"" + u + "\"" + " " + "UNSEEN" + ")";
  }
}
