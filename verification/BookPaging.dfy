/** The book catalogue page by page: the server's collection endpoint
    (server/api_books.go) and the client's loop over it (cli/run.go). The
    index does not change between the requests of one command. */
module BookPaging {
  import opened Arithmetic
  import opened Outcomes
  import opened Text
  import opened D = Decimal

  const MAX_PAGE: int := 200
  const DEFAULT_PAGE: int := 50

  datatype Book = Book(id: Text, title: Text, author: Text, series: Text, description: Text, format: Text)

  datatype Filter = Filter(query: Text, author: Text, series: Text, format: Text)

  datatype Error = InvalidLimit | InvalidOffset | InvalidSort

  datatype Page = Page(items: seq<Book>, limit: int, offset: int, total: int) | Refused(error: Error)

  /** What a client may not choose: lower-casing of texts, and the sorts, which
      rearrange a list of books or do not know the name. */
  datatype Server = Server(lower: Text -> Text, sort: (Text, seq<Book>) -> Option<seq<Book>>)
  {
    ghost predicate Rearranges() {
      forall name, books :: sort(name, books).Some? ==> multiset(sort(name, books).value) == multiset(books)
    }
  }

  // ---------- numbers in a query string ----------

  function PageValue(raw: Text, default: int, max: int): Option<int> {
    var text := Trim(raw, GoSpace);
    if text == [] then Some(default)
    else
      match Atoi(text)
      case None => None
      case Some(value) => if value < 0 || (max > 0 && value > max) then None else Some(value)
  }

  lemma ItoaIsTrimmed(n: int)
    ensures Itoa(n) != [] && Trim(Itoa(n), GoSpace) == Itoa(n)
  {
    hide D.Print, D.Value, Itoa, D.AllDigits, Trim;
    ItoaShape(n);
    TrimTrims(Itoa(n), GoSpace);
  }

  /** The server reads the number that the client wrote, if it is allowed. */
  lemma PageValueOfItoa(n: Int, default: int, max: int)
    ensures PageValue(Itoa(n), default, max) == if n < 0 || (max > 0 && n > max) then None else Some(n as int)
  {
    hide Itoa, Atoi, Trim;
    AtoiOfItoa(n);
    ItoaIsTrimmed(n);
  }

  // ---------- the server ----------

  predicate StandsAt(text: Text, part: Text, i: nat) { i + |part| <= |text| && text[i..i + |part|] == part }

  predicate Contains(text: Text, part: Text) { exists i: nat :: i <= |text| && StandsAt(text, part, i) }

  predicate ContainsFold(server: Server, value: Text, query: Text) {
    Contains(server.lower(value), server.lower(Trim(query, GoSpace)))
  }

  predicate Matches(server: Server, f: Filter, b: Book) {
    && (f.query != [] ==>
          || ContainsFold(server, b.title, f.query) || ContainsFold(server, b.author, f.query)
          || ContainsFold(server, b.series, f.query) || ContainsFold(server, b.description, f.query))
    && (f.author != [] ==> ContainsFold(server, b.author, f.author))
    && (f.series != [] ==> ContainsFold(server, b.series, f.series))
    && (var format := server.lower(Trim(f.format, GoSpace)); format == [] || b.format == format)
  }

  function Filtered(server: Server, f: Filter, books: seq<Book>): seq<Book> {
    if books == [] then []
    else
      var last := books[|books| - 1];
      Filtered(server, f, books[..|books| - 1]) + if Matches(server, f, last) then [last] else []
  }

  const MODIFIED_DESC: Text := [0x6D, 0x6F, 0x64, 0x69, 0x66, 0x69, 0x65, 0x64, 0x2D, 0x64, 0x65, 0x73, 0x63]

  function SortName(raw: Text): Text {
    var name := Trim(raw, GoSpace);
    if name == [] then MODIFIED_DESC else name
  }

  /** The whole filtered and sorted catalogue, if the sort is known. */
  function Catalogue(server: Server, index: seq<Book>, f: Filter, sortName: Text): Option<seq<Book>> {
    server.sort(SortName(sortName), Filtered(server, f, index))
  }

  /** The books from `offset` on, at most `limit` of them. */
  function Slice(books: seq<Book>, offset: int, limit: int): (r: seq<Book>)
    requires offset >= 0 && limit >= 0
  {
    books[Min(offset, |books|)..Min(offset + limit, |books|)]
  }

  /** What a page with these query parameters should be. */
  function PageOf(server: Server, index: seq<Book>, f: Filter, sortName: Text, rawLimit: Text, rawOffset: Text): Page {
    var limit, offset := PageValue(rawLimit, DEFAULT_PAGE, MAX_PAGE), PageValue(rawOffset, 0, 0);
    if limit.None? || limit.value < 1 then Refused(InvalidLimit)
    else if offset.None? then Refused(InvalidOffset)
    else
      match Catalogue(server, index, f, sortName)
      case None => Refused(InvalidSort)
      case Some(books) =>
        if offset.value < 0 then Refused(InvalidOffset)
        else Page(Slice(books, offset.value, limit.value), limit.value, offset.value, |books|)
  }

  lemma PageValueSign(raw: Text)
    ensures PageValue(raw, 0, 0).Some? ==> PageValue(raw, 0, 0).value >= 0
  {
    hide Trim, Atoi;
  }

  method HandleApiBooks(server: Server, index: seq<Book>, f: Filter, sortName: Text, rawLimit: Text, rawOffset: Text)
    returns (page: Page)
    ensures page == PageOf(server, index, f, sortName, rawLimit, rawOffset)
  {
    hide PageValue, SortName, Matches;
    var limit := PageValue(rawLimit, DEFAULT_PAGE, MAX_PAGE);
    if limit.None? || limit.value < 1 { return Refused(InvalidLimit); }
    var offset := PageValue(rawOffset, 0, 0);
    if offset.None? { return Refused(InvalidOffset); }
    var books: seq<Book> := [];
    for n := 0 to |index|
      invariant books == Filtered(server, f, index[..n])
    {
      assert index[..n + 1][..n] == index[..n];
      if Matches(server, f, index[n]) { books := books + [index[n]]; }
    }
    assert index[..|index|] == index;
    var sorted := server.sort(SortName(sortName), books);
    if sorted.None? { return Refused(InvalidSort); }
    books := sorted.value;
    var total := |books|;
    PageValueSign(rawOffset);
    var start := offset.value;
    if start > total { start := total; }
    var end := start + limit.value;
    if end > total { end := total; }
    var items: seq<Book> := [];
    for n := start to end
      invariant items == books[start..n]
    {
      items := items + [books[n]];
    }
    return Page(items, limit.value, offset.value, total);
  }

  // ---------- the client ----------

  datatype Listing = Listing(items: seq<Book>, total: int, limit: int, offset: int) | Failure(error: Error)

  method FetchBookPage(server: Server, index: seq<Book>, f: Filter, sortName: Text, limit: Int, offset: Int)
    returns (page: Page)
    ensures page == PageOf(server, index, f, sortName, Itoa(limit), Itoa(offset))
  {
    page := HandleApiBooks(server, index, f, sortName, Itoa(limit), Itoa(offset));
  }

  /** What the client gets for two numbers. */
  lemma FetchedPage(server: Server, index: seq<Book>, f: Filter, sortName: Text, limit: Int, offset: Int)
    ensures PageOf(server, index, f, sortName, Itoa(limit), Itoa(offset))
         == if limit < 1 || limit > MAX_PAGE then Refused(InvalidLimit)
            else if offset < 0 then Refused(InvalidOffset)
            else match Catalogue(server, index, f, sortName)
              case None => Refused(InvalidSort)
              case Some(books) => Page(Slice(books, offset, limit), limit, offset, |books|)
  {
    hide PageValue, Itoa, Catalogue, Slice;
    PageValueOfItoa(limit, DEFAULT_PAGE, MAX_PAGE);
    PageValueOfItoa(offset, 0, 0);
  }

  lemma SliceIs(books: seq<Book>, offset: int, limit: int)
    requires offset >= 0 && limit >= 1
    ensures var s := Slice(books, offset, limit);
      && (offset < |books| ==> 0 < |s| <= |books| - offset && s == books[offset..offset + |s|])
      && (offset >= |books| ==> s == [] && books[Min(offset, |books|)..] == [])
      && s == books[Min(offset, |books|)..][..Min(limit, |books[Min(offset, |books|)..]|)]
  {
  }

  lemma WholeRest(books: seq<Book>, from: nat)
    requires from <= |books|
    ensures books[from..|books|] == books[from..]
  {
  }

  lemma Appended(books: seq<Book>, from: nat, next: nat, n: nat)
    requires from <= next && next + n <= |books|
    ensures books[from..next] + books[next..next + n] == books[from..next + n]
  {
  }

  lemma {:induction false} FilteredIsShorter(server: Server, f: Filter, books: seq<Book>)
    ensures |Filtered(server, f, books)| <= |books|
  {
    hide Matches;
    if books != [] { FilteredIsShorter(server, f, books[..|books| - 1]); }
  }

  lemma CatalogueSize(server: Server, index: seq<Book>, f: Filter, sortName: Text)
    requires server.Rearranges() && Catalogue(server, index, f, sortName).Some?
    ensures |Catalogue(server, index, f, sortName).value| <= |index|
  {
    hide Filtered, SortName;
    FilteredIsShorter(server, f, index);
    var filtered, books := Filtered(server, f, index), Catalogue(server, index, f, sortName).value;
    assert |multiset(books)| == |multiset(filtered)|;
  }

  /** books list: `limit` is what --limit says, if it is given. */
  method CmdBooks(server: Server, index: seq<Book>, f: Filter, sortName: Text, limit: Option<Int>, offset: Int)
    returns (r: Listing)
    requires server.Rearranges() && |index| < 0x4000_0000_0000_0000
    ensures limit.Some? && !(1 <= limit.value <= MAX_PAGE) ==> r == Failure(InvalidLimit)
    ensures (limit.Some? ==> 1 <= limit.value <= MAX_PAGE) && offset < 0 ==> r == Failure(InvalidOffset)
    ensures (limit.Some? ==> 1 <= limit.value <= MAX_PAGE) && offset >= 0 ==>
      match Catalogue(server, index, f, sortName) {
        case None => r == Failure(InvalidSort)
        case Some(books) =>
          var rest := books[Min(offset, |books|)..];
          if limit.Some? then r == Listing(rest[..Min(limit.value, |rest|)], |books|, limit.value, offset)
          else r == Listing(rest, |books|, |rest|, offset)
      }
  {
    hide PageOf, Itoa, Catalogue, Slice;
    var firstLimit: Int := if limit.Some? then limit.value else MAX_PAGE;
    var page := FetchBookPage(server, index, f, sortName, firstLimit, offset);
    FetchedPage(server, index, f, sortName, firstLimit, offset);
    if page.Refused? { return Failure(page.error); }
    ghost var books := Catalogue(server, index, f, sortName).value;
    ghost var from := Min(offset, |books|);
    SliceIs(books, offset, firstLimit);
    if limit.Some? {
      return Listing(page.items, page.total, page.limit, page.offset);
    }
    CatalogueSize(server, index, f, sortName);
    var all := page.items;
    while |page.items| > 0
      invariant page.Page? && page.total == |books| && offset <= page.offset && from <= |books|
      invariant |page.items| > 0 ==>
        from <= page.offset + |page.items| <= |books| && all == books[from..page.offset + |page.items|]
      invariant |page.items| == 0 ==> all == books[from..]
      decreases |books| - page.offset
    {
      var next := page.offset + |page.items|;
      if next >= page.total {
        WholeRest(books, from);
        break;
      }
      page := FetchBookPage(server, index, f, sortName, MAX_PAGE, next);
      if page.Refused? {
        r := Failure(page.error);
        FetchedPage(server, index, f, sortName, MAX_PAGE, next);
        return;
      }
      FetchedPage(server, index, f, sortName, MAX_PAGE, next);
      SliceIs(books, next, MAX_PAGE);
      Appended(books, from, next, |page.items|);
      all := all + page.items;
    }
    return Listing(all, page.total, |all|, offset);
  }

  // ---------- what the listing contains ----------

  lemma {:induction false} FilteredContains(server: Server, f: Filter, books: seq<Book>, b: Book)
    ensures multiset(Filtered(server, f, books))[b] == if Matches(server, f, b) then multiset(books)[b] else 0
  {
    hide Matches;
    if books != [] {
      var rest, last := books[..|books| - 1], books[|books| - 1];
      FilteredContains(server, f, rest, b);
      assert books == rest + [last];
    }
  }

  /** From offset 0 the listing has every matching book of the index as often as the index has it. */
  lemma ListingIsComplete(server: Server, index: seq<Book>, f: Filter, sortName: Text, b: Book)
    requires server.Rearranges() && Catalogue(server, index, f, sortName).Some?
    ensures var books := Catalogue(server, index, f, sortName).value;
      multiset(books[Min(0, |books|)..])[b] == if Matches(server, f, b) then multiset(index)[b] else 0
  {
    hide Matches, Filtered, SortName;
    var books := Catalogue(server, index, f, sortName).value;
    FilteredContains(server, f, index, b);
    assert books[0..] == books;
  }

  // ---------- what matches, and what a page holds ----------

  /** The lower-cased value has the lower-cased, trimmed term in it. */
  ghost predicate Mentions(server: Server, value: Text, term: Text) {
    exists before, after :: server.lower(value) == before + server.lower(Trim(term, GoSpace)) + after
  }

  lemma ContainsIsMention(server: Server, value: Text, term: Text)
    ensures ContainsFold(server, value, term) <==> Mentions(server, value, term)
  {
    hide Trim;
    var text, part := server.lower(value), server.lower(Trim(term, GoSpace));
    if Contains(text, part) {
      var i: nat :| i <= |text| && StandsAt(text, part, i);
      assert text == text[..i] + part + text[i + |part|..];
    }
    if before, after :| text == before + part + after {
      assert text[|before|..|before| + |part|] == part;
      assert StandsAt(text, part, |before|);
    }
  }

  /** A book matches exactly if title, author, series or description mention the
      query, the author and the series mention theirs, and the format is the one
      asked for; a criterion that is not given does not matter. */
  lemma MatchesExactly(server: Server, f: Filter, b: Book)
    ensures Matches(server, f, b) <==>
      && (f.query == [] || exists field :: field in {b.title, b.author, b.series, b.description}
                                        && Mentions(server, field, f.query))
      && (f.author == [] || Mentions(server, b.author, f.author))
      && (f.series == [] || Mentions(server, b.series, f.series))
      && (server.lower(GoTrim(f.format)) == [] || b.format == server.lower(GoTrim(f.format)))
  {
    hide Trim, Mentions, ContainsFold;
    forall field, term ensures ContainsFold(server, field, term) <==> Mentions(server, field, term) {
      ContainsIsMention(server, field, term);
    }
  }

  /** A page holds exactly the books at its places in the catalogue. */
  lemma PageHolds(server: Server, index: seq<Book>, f: Filter, sortName: Text, limit: Int, offset: Int)
    requires 1 <= limit <= 200 && offset >= 0 && Catalogue(server, index, f, sortName).Some?
    ensures var books := Catalogue(server, index, f, sortName).value;
      var page := PageOf(server, index, f, sortName, Itoa(limit), Itoa(offset));
      && page.Page? && page.total == |books| && page.limit == limit && page.offset == offset
      && |page.items| == (if offset >= |books| then 0 else if |books| - offset < limit then |books| - offset else limit)
      && forall k :: 0 <= k < |page.items| ==> page.items[k] == books[offset + k]
  {
    hide PageOf, Itoa, Catalogue;
    FetchedPage(server, index, f, sortName, limit, offset);
  }

  lemma EmptyIsTrimmed()
    ensures Trim([], GoSpace) == []
  {
  }

  lemma SortStays()
    ensures SortName(MODIFIED_DESC) == MODIFIED_DESC
  {
    assert !GoSpace(MODIFIED_DESC[0]) && !GoSpace(MODIFIED_DESC[|MODIFIED_DESC| - 1]);
    hide Trim, GoSpace;
    TrimTrims(MODIFIED_DESC, GoSpace);
  }

  /** Without a sort, the latest modified books come first. */
  lemma DefaultSort(server: Server, index: seq<Book>, f: Filter, rawLimit: Text, rawOffset: Text)
    ensures var modifiedDesc: Text :=
        ['m' as nat, 'o' as nat, 'd' as nat, 'i' as nat, 'f' as nat, 'i' as nat, 'e' as nat, 'd' as nat,
         '-' as nat, 'd' as nat, 'e' as nat, 's' as nat, 'c' as nat];
      PageOf(server, index, f, [], rawLimit, rawOffset) == PageOf(server, index, f, modifiedDesc, rawLimit, rawOffset)
  {
    hide Filtered, PageValue, Slice, Trim;
    EmptyIsTrimmed();
    SortStays();
  }

  /** Without parameters a page starts at 0 and has up to 50 books. */
  lemma DefaultPage(server: Server, index: seq<Book>, f: Filter, sortName: Text)
    requires Catalogue(server, index, f, sortName).Some?
    ensures PageOf(server, index, f, sortName, [], []) == PageOf(server, index, f, sortName, Itoa(50), Itoa(0))
  {
    hide Catalogue, Slice, Itoa, Atoi;
    assert Trim([], GoSpace) == [];
    PageValueOfItoa(50, 50, 200);
    PageValueOfItoa(0, 0, 0);
  }
}
