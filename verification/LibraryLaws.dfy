/** What each call on a private library changes in the answers of later queries
    (auth/library.go, auth/reading.go). */
module LibraryLaws {
  import opened Outcomes
  import opened Text
  import opened R = ReadingTags
  import opened PersonalLibrary

  /** The rows of a selection; none if it was refused. */
  function RowsOf(s: Selection): set<Row> { if s.Rows? then s.rows else {} }

  predicate ValidBook(raw: Text) { 0 < Utf8Size(GoTrim(raw)) <= 200 }

  lemma BookIdIs(raw: Text)
    ensures BookId(raw) == if ValidBook(raw) then Some(GoTrim(raw)) else None
  {
    hide GoTrim;
  }

  lemma ListNameIs(raw: Text)
    ensures ListName(raw) == if 1 <= |GoSquash(raw)| <= 80 then Some(GoSquash(raw)) else None
  {
    hide GoSquash;
  }

  lemma TagIs(raw: Text)
    ensures NormalizeTag(raw).Ok? <==> 1 <= |GoSquash(raw)| <= 40
    ensures NormalizeTag(raw).Err? ==> NormalizeTag(raw).error == if GoSquash(raw) == [] then EnterTag else TagTooLong
    ensures NormalizeTag(raw).Ok? ==> NormalizeTag(raw).value == GoSquash(raw)
  {
    hide GoSquash;
  }

  // ---------- books that were read ----------

  lemma RowOfActivity(db: Db, user: Id, book: Text, at: int)
    ensures BookRow(book, at) in ActivityRows(db, user) <==>
      (user, book) in db.activity && db.activity[(user, book)] == at
  {
    if (user, book) in db.activity && db.activity[(user, book)] == at {
      assert BookRow((user, book).1, db.activity[(user, book)]) in ActivityRows(db, user);
    }
  }

  /** A book that was read is among the recent books with the time of the last
      reading; the rows of other books, and all other tables, stay. */
  lemma ReadIsRecent(db: Db, user: Id, raw: Text, now: int, limit: int, lower: nat -> nat)
    ensures var (db', r) := Apply(db, RecordRead(user, raw, now), lower);
      var rows, rows' := RowsOf(Select(db, RecentBooks(user, limit))), RowsOf(Select(db', RecentBooks(user, limit)));
      && db' == db.(activity := db'.activity)
      && (!ValidBook(raw) ==> r == Failed(BadBook) && db' == db)
      && (ValidBook(raw) ==>
            && r == Done
            && (forall at :: BookRow(GoTrim(raw), at) in rows' <==> at == now)
            && (forall book, at :: book != GoTrim(raw) ==> (BookRow(book, at) in rows' <==> BookRow(book, at) in rows)))
  {
    hide GoTrim, BookId, ValidBook;
    BookIdIs(raw);
    var book := GoTrim(raw);
    var db' := Apply(db, RecordRead(user, raw, now), lower).0;
    if ValidBook(raw) {
      assert (user, book) in db'.activity && db'.activity[(user, book)] == now;
      forall b: Text, at | b != book
        ensures BookRow(b, at) in ActivityRows(db', user) <==> BookRow(b, at) in ActivityRows(db, user)
      {
        RowOfActivity(db, user, b, at);
        RowOfActivity(db', user, b, at);
      }
      forall at ensures BookRow(book, at) in ActivityRows(db', user) <==> at == now {
        RowOfActivity(db', user, book, at);
      }
    }
  }

  // ---------- lists ----------

  lemma NameTakenIs(db: Db, user: Id, name: Text)
    ensures NameTaken(db.lists, user, name) <==>
      exists l :: l in db.lists && db.lists[l].user == user && Fold(db.lists[l].name) == Fold(name)
  {
    hide Fold;
  }

  lemma RowOfOwnList(db: Db, user: Id, id: Id, list: BookList, count: nat, contains: bool)
    ensures ListRow(id, list, count, contains) in ListRows(db, user, None) <==>
      id in db.lists && db.lists[id] == list && list.user == user && count == |BooksIn(db, id)| && !contains
  {
    if id in db.lists && db.lists[id] == list && list.user == user && count == |BooksIn(db, id)| && !contains {
      assert RowOfList(db, id, None) in ListRows(db, user, None);
    }
  }

  lemma NewListRows(db: Db, db': Db, user: Id, id: Id, list: BookList)
    requires NoOrphans(db) && id !in db.lists && db' == db.(lists := db.lists[id := list]) && list.user == user
    ensures ListRows(db', user, None) == ListRows(db, user, None) + {ListRow(id, list, 0, false)}
  {
    assert BooksIn(db', id) == {};
    forall l ensures BooksIn(db', l) == BooksIn(db, l) {}
    forall r ensures r in ListRows(db', user, None) <==> r in ListRows(db, user, None) + {ListRow(id, list, 0, false)} {
      if r.ListRow? {
        RowOfOwnList(db, user, r.id, r.list, r.count, r.contains);
        RowOfOwnList(db', user, r.id, r.list, r.count, r.contains);
      }
    }
  }

  /** Creating: if the name has 1 to 80 characters and the account has no list of
      that name ignoring case, its lists are those it had and a new, empty one. */
  lemma CreatedIsListed(db: Db, user: Id, raw: Text, id: Id, now: int, lower: nat -> nat)
    requires NoOrphans(db) && id !in db.lists
    ensures var (db', r) := Apply(db, CreateList(user, raw, id, now), lower);
      var name, rows, rows' := GoSquash(raw), RowsOf(Select(db, ListsOf(user))), RowsOf(Select(db', ListsOf(user)));
      var taken := exists l :: l in db.lists && db.lists[l].user == user && Fold(db.lists[l].name) == Fold(name);
      && db' == db.(lists := db'.lists)
      && (r == Failed(BadListName) <==> !(1 <= |name| <= 80))
      && (r == Failed(ListNameExists) <==> 1 <= |name| <= 80 && taken)
      && (r.Failed? <==> !(1 <= |name| <= 80) || taken)
      && (r.Failed? ==> db' == db)
      && (!r.Failed? ==> r == ListMade(id, BookList(user, name, now, now)))
      && (!r.Failed? ==> rows' == rows + {ListRow(id, BookList(user, name, now, now), 0, false)})
  {
    hide GoSquash, Fold, ListName;
    ListNameIs(raw);
    NameTakenIs(db, user, GoSquash(raw));
    var (db', r) := Apply(db, CreateList(user, raw, id, now), lower);
    if !r.Failed? {
      assert BooksIn(db', id) == {};
      var list := BookList(user, GoSquash(raw), now, now);
      NewListRows(db, db', user, id, list);
    }
  }

  /** Deleting an own list: it is no longer listed or found; the other lists stay as they are. */
  lemma DeletedIsGone(db: Db, user: Id, raw: Text, lower: nat -> nat)
    ensures var (db', r) := Apply(db, DeleteList(user, raw), lower);
      var list, rows, rows' := GoTrim(raw), RowsOf(Select(db, ListsOf(user))), RowsOf(Select(db', ListsOf(user)));
      && db' == db.(lists := db'.lists, listItems := db'.listItems)
      && (r == Done <==> list in db.lists && db.lists[list].user == user)
      && (r != Done ==> r == Failed(ListNotFound) && db' == db)
      && (r == Done ==> Select(db', ListById(user, raw)) == Refused(ListNotFound))
      && (r == Done ==> Select(db', BooksInList(user, raw)) == Refused(ListNotFound))
      && (r == Done ==>
            forall id, l, n, c :: ListRow(id, l, n, c) in rows' <==> ListRow(id, l, n, c) in rows && id != list)
      && (r == Done ==> forall l :: l in db.lists && l != list ==> l in db'.lists && BooksIn(db', l) == BooksIn(db, l))
  {
    hide GoTrim;
    var list := GoTrim(raw);
    var (db', r) := Apply(db, DeleteList(user, raw), lower);
    if r == Done {
      forall l | l != list ensures BooksIn(db', l) == BooksIn(db, l) {}
      forall id, l, n, c
        ensures ListRow(id, l, n, c) in ListRows(db', user, None)
           <==> ListRow(id, l, n, c) in ListRows(db, user, None) && id != list
      {
        RowOfOwnList(db, user, id, l, n, c);
        RowOfOwnList(db', user, id, l, n, c);
      }
    }
  }

  lemma RowOfBook(db: Db, user: Id, list: Id, book: Text, at: int)
    requires OwnsList(db, user, list)
    ensures BookRow(book, at) in BookRows(db, user, list) <==>
      (list, book) in db.listItems && db.listItems[(list, book)] == at
  {
    if (list, book) in db.listItems && db.listItems[(list, book)] == at {
      assert BookRow((list, book).1, db.listItems[(list, book)]) in BookRows(db, user, list);
    }
  }

  /** The list was touched: it has a new time and is otherwise as it was. */
  ghost predicate Touched(db: Db, db': Db, list: Id, now: int) {
    && list in db.lists && db' == db.(lists := db'.lists, listItems := db'.listItems)
    && db'.lists == db.lists[list := db.lists[list].(updatedAt := now)]
    && (forall k: (Id, Text) :: k.0 != list ==> (k in db'.listItems <==> k in db.listItems))
    && (forall k: (Id, Text) :: k.0 != list && k in db.listItems ==> db'.listItems[k] == db.listItems[k])
  }

  lemma BookRowsAfter(db: Db, db': Db, user: Id, list: Id, book: Text, now: int)
    requires OwnsList(db, user, list) && OwnsList(db', user, list)
    requires db'.listItems ==
      if (list, book) in db.listItems then db.listItems else db.listItems[(list, book) := now]
    ensures var rows := BookRows(db, user, list);
      BookRows(db', user, list) == rows + if exists at :: BookRow(book, at) in rows then {} else {BookRow(book, now)}
  {
    hide OwnsList;
    var there := (list, book) in db.listItems;
    if there { RowOfBook(db, user, list, book, db.listItems[(list, book)]); }
    forall at ensures BookRow(book, at) in BookRows(db, user, list) ==> there { RowOfBook(db, user, list, book, at); }
    var added := if there then {} else {BookRow(book, now)};
    forall row ensures row in BookRows(db', user, list) <==> row in BookRows(db, user, list) + added {
      if row.BookRow? {
        RowOfBook(db, user, list, row.book, row.at);
        RowOfBook(db', user, list, row.book, row.at);
      }
    }
  }

  /** Whether a list is shown as holding a book. */
  lemma Contains(db: Db, user: Id, list: Id, raw: Text, contains: bool)
    requires OwnsList(db, user, list) && ValidBook(raw)
    ensures ListRow(list, db.lists[list], |BooksIn(db, list)|, contains) in RowsOf(Select(db, ListsForBook(user, raw)))
       <==> contains == ((list, GoTrim(raw)) in db.listItems)
  {
    hide GoTrim, BookId, ValidBook, BooksIn;
    BookIdIs(raw);
    assert RowOfList(db, list, Some(GoTrim(raw))) in ListRows(db, user, Some(GoTrim(raw)));
  }

  lemma BooksSelected(db: Db, user: Id, rawList: Text)
    ensures RowsOf(Select(db, BooksInList(user, rawList)))
         == if OwnsList(db, user, GoTrim(rawList)) then BookRows(db, user, GoTrim(rawList)) else {}
  {
    hide GoTrim, BookRows;
  }

  lemma {:induction false} RowsCount(db: Db, keys: set<(Id, Text)>, list: Id)
    requires forall k :: k in keys ==> k in db.listItems && k.0 == list
    ensures |set k | k in keys :: BookRow(k.1, db.listItems[k])| == |keys|
    decreases |keys|
  {
    var rows := set k | k in keys :: BookRow(k.1, db.listItems[k]);
    if keys == {} {
      assert rows == {};
    } else {
      var some :| some in keys;
      var rest := keys - {some};
      var row := BookRow(some.1, db.listItems[some]);
      RowsCount(db, rest, list);
      var others := set k | k in rest :: BookRow(k.1, db.listItems[k]);
      forall k | k in rest ensures k.1 != some.1 { assert k.0 == some.0 && k != some; }
      assert rows == others + {row} && row !in others;
    }
  }

  /** The number shown with a list is the number of its books. */
  lemma CountIsShown(db: Db, user: Id, rawList: Text)
    requires OwnsList(db, user, GoTrim(rawList))
    ensures var list := GoTrim(rawList);
      Select(db, ListById(user, rawList))
        == Rows({ListRow(list, db.lists[list], |RowsOf(Select(db, BooksInList(user, rawList)))|, false)})
  {
    hide GoTrim;
    var list := GoTrim(rawList);
    RowsCount(db, BooksIn(db, list), list);
    assert BookRows(db, user, list) == set k | k in BooksIn(db, list) :: BookRow(k.1, db.listItems[k]);
  }

  /** Adding to an own list: the book is in it, with its first time if it was in it already. */
  lemma AddedIsInList(db: Db, user: Id, rawList: Text, raw: Text, now: int, lower: nat -> nat)
    ensures var (db', r) := Apply(db, AddBook(user, rawList, raw, now), lower);
      var list, book := GoTrim(rawList), GoTrim(raw);
      var rows := RowsOf(Select(db, BooksInList(user, rawList)));
      var rows' := RowsOf(Select(db', BooksInList(user, rawList)));
      && (r == Done <==> ValidBook(raw) && list in db.lists && db.lists[list].user == user)
      && (r != Done ==> r == Failed(if ValidBook(raw) then ListNotFound else BadBook) && db' == db)
      && (r == Done ==> Touched(db, db', list, now))
      && (r == Done ==> rows' == rows + if exists at :: BookRow(book, at) in rows then {} else {BookRow(book, now)})
      && (r == Done ==> ListRow(list, db'.lists[list], |BooksIn(db', list)|, true)
                          in RowsOf(Select(db', ListsForBook(user, raw))))
  {
    hide GoTrim, BookId, ValidBook, BooksIn, BookRows, ListRows, Select;
    BookIdIs(raw);
    var list, book := GoTrim(rawList), GoTrim(raw);
    var (db', r) := Apply(db, AddBook(user, rawList, raw, now), lower);
    if r == Done {
      BooksSelected(db, user, rawList);
      BooksSelected(db', user, rawList);
      BookRowsAfter(db, db', user, list, book, now);
      Contains(db', user, list, raw, true);
    }
  }

  /** Removing from an own list: the book is absent and the others stay. */
  lemma RemovedIsAbsent(db: Db, user: Id, rawList: Text, raw: Text, now: int, lower: nat -> nat)
    ensures var (db', r) := Apply(db, RemoveBook(user, rawList, raw, now), lower);
      var list, book := GoTrim(rawList), GoTrim(raw);
      var rows := RowsOf(Select(db, BooksInList(user, rawList)));
      var rows' := RowsOf(Select(db', BooksInList(user, rawList)));
      && (r == Done <==> ValidBook(raw) && list in db.lists && db.lists[list].user == user)
      && (r != Done ==> r == Failed(if ValidBook(raw) then ListNotFound else BadBook) && db' == db)
      && (r == Done ==> Touched(db, db', list, now))
      && (r == Done ==> forall b, at :: BookRow(b, at) in rows' <==> BookRow(b, at) in rows && b != book)
      && (r == Done ==> ListRow(list, db'.lists[list], |BooksIn(db', list)|, false)
                          in RowsOf(Select(db', ListsForBook(user, raw))))
  {
    hide GoTrim, BookId, ValidBook, BooksIn, BookRows, ListRows, Select;
    BookIdIs(raw);
    var list, book := GoTrim(rawList), GoTrim(raw);
    var (db', r) := Apply(db, RemoveBook(user, rawList, raw, now), lower);
    if r == Done {
      BooksSelected(db, user, rawList);
      BooksSelected(db', user, rawList);
      Contains(db', user, list, raw, false);
      forall b, at
        ensures BookRow(b, at) in BookRows(db', user, list) <==> BookRow(b, at) in BookRows(db, user, list) && b != book
      {
        RowOfBook(db, user, list, b, at);
        RowOfBook(db', user, list, b, at);
      }
    }
  }

  // ---------- tags of books ----------

  lemma RowOfBookTag(db: Db, user: Id, book: Text, key: Text, tag: Text)
    ensures BookTag(key, tag) in TagRowsOfBook(db, user, book) <==>
      (user, book, key) in db.tags && db.tags[(user, book, key)].tag == tag
  {
    if (user, book, key) in db.tags && db.tags[(user, book, key)].tag == tag {
      var k := (user, book, key);
      assert k.0 == user && k.1 == book && BookTag(k.2, db.tags[k].tag) == BookTag(key, tag);
    }
  }

  lemma RowOfTagged(db: Db, user: Id, key: Text, book: Text, at: int)
    ensures BookRow(book, at) in TaggedRows(db, user, key) <==>
      (user, book, key) in db.tags && db.tags[(user, book, key)].createdAt == at
  {
    if (user, book, key) in db.tags && db.tags[(user, book, key)].createdAt == at {
      var k := (user, book, key);
      assert k.0 == user && k.2 == key && BookRow(k.1, db.tags[k].createdAt) == BookRow(book, at);
    }
  }

  predicate ValidTag(raw: Text) { 1 <= |GoSquash(raw)| <= 40 }

  /** Why a book cannot be tagged, or untagged. */
  function NotTagged(raw: Text, rawTag: Text): Failure {
    if !ValidBook(raw) then BadBook else BadTag(if GoSquash(rawTag) == [] then EnterTag else TagTooLong)
  }

  /** Only one row of the table may differ. */
  ghost predicate SameTagsBut(db: Db, db': Db, key: (Id, Text, Text)) {
    && db' == db.(tags := db'.tags)
    && (forall k :: k != key ==> (k in db'.tags <==> k in db.tags))
    && (forall k :: k != key && k in db.tags ==> db'.tags[k] == db.tags[k])
  }

  /** Tagging: the book has the tag, in its first spelling if it had it before
      ignoring case, and is found under it; no other row changes. */
  lemma TaggedIsFound(db: Db, user: Id, raw: Text, rawTag: Text, now: int, lower: nat -> nat)
    ensures var (db', r) := Apply(db, AddTag(user, raw, rawTag, now), lower);
      var book, tag, key := GoTrim(raw), GoSquash(rawTag), Fold(GoSquash(rawTag));
      var rows, rows' := RowsOf(Select(db, TagsOfBook(user, raw))), RowsOf(Select(db', TagsOfBook(user, raw)));
      && (r == Done <==> ValidBook(raw) && ValidTag(rawTag))
      && (r != Done ==> r == Failed(NotTagged(raw, rawTag)) && db' == db)
      && (r == Done ==> SameTagsBut(db, db', (user, book, key)))
      && (r == Done ==> if exists t :: BookTag(key, t) in rows then db' == db
                        else forall t :: BookTag(key, t) in rows' <==> t == tag)
      && (r == Done ==> exists at :: BookRow(book, at) in RowsOf(Select(db', BooksWithTag(user, rawTag))))
  {
    hide GoTrim, GoSquash, Fold, BookId, ValidBook, NormalizeTag, TagRowsOfBook, TaggedRows;
    BookIdIs(raw);
    TagIs(rawTag);
    var book, tag, key := GoTrim(raw), GoSquash(rawTag), Fold(GoSquash(rawTag));
    var (db', r) := Apply(db, AddTag(user, raw, rawTag, now), lower);
    if r == Done {
      if (user, book, key) in db.tags { RowOfBookTag(db, user, book, key, db.tags[(user, book, key)].tag); }
      forall t ensures BookTag(key, t) in TagRowsOfBook(db', user, book) <==> db'.tags[(user, book, key)].tag == t
      {
        RowOfBookTag(db', user, book, key, t);
      }
      forall t ensures BookTag(key, t) in TagRowsOfBook(db, user, book) ==> (user, book, key) in db.tags {
        RowOfBookTag(db, user, book, key, t);
      }
      RowOfTagged(db', user, key, book, db'.tags[(user, book, key)].createdAt);
    }
  }

  /** Removing a tag: the book has it in no spelling, and is not found under it; no other row changes. */
  lemma UntaggedIsNotFound(db: Db, user: Id, raw: Text, rawTag: Text, lower: nat -> nat)
    ensures var (db', r) := Apply(db, RemoveTag(user, raw, rawTag), lower);
      var book, key := GoTrim(raw), Fold(GoSquash(rawTag));
      && (r == Done <==> ValidBook(raw) && ValidTag(rawTag))
      && (r != Done ==> r == Failed(NotTagged(raw, rawTag)) && db' == db)
      && (r == Done ==> SameTagsBut(db, db', (user, book, key)))
      && (r == Done ==> forall t :: BookTag(key, t) !in RowsOf(Select(db', TagsOfBook(user, raw))))
      && (r == Done ==> forall at :: BookRow(book, at) !in RowsOf(Select(db', BooksWithTag(user, rawTag))))
  {
    hide GoTrim, GoSquash, Fold, BookId, ValidBook, NormalizeTag, TagRowsOfBook, TaggedRows;
    BookIdIs(raw);
    TagIs(rawTag);
    var book, key := GoTrim(raw), Fold(GoSquash(rawTag));
    var (db', r) := Apply(db, RemoveTag(user, raw, rawTag), lower);
    if r == Done {
      forall t ensures BookTag(key, t) !in TagRowsOfBook(db', user, book) { RowOfBookTag(db', user, book, key, t); }
      forall at ensures BookRow(book, at) !in TaggedRows(db', user, key) { RowOfTagged(db', user, key, book, at); }
    }
  }

  lemma GroupIs(db: Db, user: Id, key: Text)
    ensures var group := RowOfTag(db, user, key);
      && group.TagGroup? && group.key == key
      && (forall book :: book in group.books <==> (user, book, key) in db.tags)
      && (forall t :: t in group.spellings <==>
            exists book :: (user, book, key) in db.tags && db.tags[(user, book, key)].tag == t)
  {
    var group := RowOfTag(db, user, key);
    forall book | (user, book, key) in db.tags
      ensures book in group.books && db.tags[(user, book, key)].tag in group.spellings
    {
      var k := (user, book, key);
      assert k.0 == user && k.2 == key && k.1 == book;
    }
    forall t | t in group.spellings
      ensures exists book :: (user, book, key) in db.tags && db.tags[(user, book, key)].tag == t
    {
      var k :| k in db.tags && k.0 == user && k.2 == key && db.tags[k].tag == t;
      assert k == (user, k.1, key);
    }
    forall book | book in group.books ensures (user, book, key) in db.tags {
      var k :| k in db.tags && k.0 == user && k.2 == key && k.1 == book;
      assert k == (user, book, key);
    }
  }

  /** The tags of an account: one group for every tag that a book has, ignoring
      case, with all its spellings and all its books. */
  lemma TagGroupsAre(db: Db, user: Id)
    ensures forall key, spellings, books ::
      TagGroup(key, spellings, books) in RowsOf(Select(db, TagsOfUser(user))) <==>
        && books != {}
        && (forall book :: book in books <==> (user, book, key) in db.tags)
        && (forall t :: t in spellings <==>
              exists book :: (user, book, key) in db.tags && db.tags[(user, book, key)].tag == t)
  {
    hide RowOfTag;
    forall key, spellings, books
      ensures TagGroup(key, spellings, books) in TagRows(db, user) <==>
        books != {} && TagGroup(key, spellings, books) == RowOfTag(db, user, key)
    {
      GroupIs(db, user, key);
      var group := TagGroup(key, spellings, books);
      if group in TagRows(db, user) {
        var k :| k in db.tags && k.0 == user && group == RowOfTag(db, user, k.2);
        GroupIs(db, user, k.2);
        assert (user, k.1, k.2) == k;
      }
      if books != {} && group == RowOfTag(db, user, key) {
        var book :| book in books;
        assert (user, book, key) in db.tags && RowOfTag(db, user, (user, book, key).2) in TagRows(db, user);
      }
    }
    forall key, spellings, books
      ensures TagGroup(key, spellings, books) == RowOfTag(db, user, key) <==>
        && (forall book :: book in books <==> (user, book, key) in db.tags)
        && (forall t :: t in spellings <==>
              exists book :: (user, book, key) in db.tags && db.tags[(user, book, key)].tag == t)
    {
      GroupIs(db, user, key);
    }
  }

  // ---------- bookmarks and notes ----------

  /** The items of an account: all of them, or those of one book. */
  lemma ItemsAre(db: Db, user: Id, raw: Text, limit: int, id: Id, item: Item, tags: map<Text, Text>)
    requires GoTrim(raw) == [] || ValidBook(raw)
    ensures ItemRow(id, item, tags) in RowsOf(Select(db, ItemsOf(user, raw, limit))) <==>
      && id in db.items && db.items[id] == item && item.user == user && tags == JoinedTags(db, user, id)
      && (GoTrim(raw) != [] ==> item.book == GoTrim(raw))
  {
    hide GoTrim, BookId, ValidBook, JoinedTags;
    BookIdIs(raw);
    var book := if GoTrim(raw) == [] then None else Some(GoTrim(raw));
    assert RowsOf(Select(db, ItemsOf(user, raw, limit))) == ItemRows(db, user, book);
    if id in db.items && db.items[id].user == user && (book.Some? ==> db.items[id].book == book.value) {
      assert ItemRow(id, db.items[id], JoinedTags(db, user, id)) in ItemRows(db, user, book);
    }
  }

  /** The tags shown with an item are these, each in its own spelling. */
  ghost predicate ShowsTags(shown: map<Text, Text>, tags: seq<Text>) {
    && (forall i :: 0 <= i < |tags| ==> Fold(tags[i]) in shown && shown[Fold(tags[i])] == tags[i])
    && (forall key :: key in shown ==> exists i :: 0 <= i < |tags| && key == Fold(tags[i]))
  }

  lemma JoinedTagsAre(db: Db, user: Id, item: Id, rest: TagTable, tags: seq<Text>, now: int)
    requires OwnsItem(db, user, item) && (forall k :: k in rest ==> k.0 != item) && Insertable(rest, item, tags)
    requires db.itemTags == WithTags(rest, item, tags, now)
    ensures ShowsTags(JoinedTags(db, user, item), tags)
    ensures ShowsTags(TagsOf(db.itemTags, item), tags)
  {
    hide Fold, WithTags, Insertable;
    WithTagsRows(rest, item, tags, now);
    forall i | 0 <= i < |tags|
      ensures Fold(tags[i]) in JoinedTags(db, user, item) && JoinedTags(db, user, item)[Fold(tags[i])] == tags[i]
      ensures Fold(tags[i]) in TagsOf(db.itemTags, item) && TagsOf(db.itemTags, item)[Fold(tags[i])] == tags[i]
    {
      assert (item, Fold(tags[i])) in db.itemTags;
    }
  }

  /** "Bookmark" */
  const BOOKMARK: Text :=
    ['B' as nat, 'o' as nat, 'o' as nat, 'k' as nat, 'm' as nat, 'a' as nat, 'r' as nat, 'k' as nat]

  /** "Note" */
  const NOTE: Text := ['N' as nat, 'o' as nat, 't' as nat, 'e' as nat]

  /** Saving: the item is found by its id as it was sent, trimmed, with its
      normalized tags, and `Bookmark` or `Note` for a title that is blank. */
  lemma SavedIsFound(db: Db, user: Id, d: Draft, id: Id, now: int, lower: nat -> nat)
    requires NoOrphans(db) && id !in db.items && GoTrim(id) == id
    ensures var (db', r) := Apply(db, CreateItem(user, d, id, now), lower);
      && db' == db.(items := db'.items, itemTags := db'.itemTags)
      && (r.ItemSaved? ==> d.kind.Some?)
      && (r.ItemSaved? ==>
            var title := if GoTrim(d.title) != [] then GoTrim(d.title)
                         else if d.kind.value == Bookmark then BOOKMARK else NOTE;
            var item := Item(user, GoTrim(d.book), d.kind.value, GoTrim(d.locator), GoTrim(d.locatorLabel), title,
                             GoTrim(d.body), GoTrim(d.excerpt), now, now);
            && db'.items == db.items[id := item]
            && ShowsTags(JoinedTags(db', user, id), Normalized(d.tags, lower))
            && Select(db', ItemById(user, id)) == Rows({ItemRow(id, item, JoinedTags(db', user, id))}))
      && (!r.ItemSaved? ==> r.Failed? && db' == db)
  {
    hide GoTrim, BookId, Accepted, Normalized, Insertable, WithTags, JoinedTags, TagsOf, ShowsTags;
    BookIdIs(d.book);
    var (db', r) := Apply(db, CreateItem(user, d, id, now), lower);
    if r.ItemSaved? {
      JoinedTagsAre(db', user, id, db.itemTags, Normalized(d.tags, lower), now);
    }
  }

  /** Editing an own item: it is found with the new title, body, tags and time, and is otherwise as it was. */
  lemma EditedIsFound(db: Db, user: Id, rawItem: Text, rawTitle: Text, rawBody: Text, raws: seq<Text>, now: int,
                      lower: nat -> nat)
    ensures var (db', r) := Apply(db, UpdateItem(user, rawItem, rawTitle, rawBody, raws, now), lower);
      var id := GoTrim(rawItem);
      && db' == db.(items := db'.items, itemTags := db'.itemTags)
      && (r.ItemSaved? ==> id in db.items && db.items[id].user == user)
      && (r.ItemSaved? ==>
            var title := if GoTrim(rawTitle) != [] then GoTrim(rawTitle)
                         else if db.items[id].kind == Bookmark then BOOKMARK else NOTE;
            var item := db.items[id].(title := title, body := GoTrim(rawBody), updatedAt := now);
            && db'.items == db.items[id := item]
            && ShowsTags(JoinedTags(db', user, id), Normalized(raws, lower))
            && Select(db', ItemById(user, rawItem)) == Rows({ItemRow(id, item, JoinedTags(db', user, id))}))
      && (!r.ItemSaved? ==> r.Failed? && db' == db)
      && (r.ItemSaved? || r == Failed(Constraint) <==>
            && id in db.items && db.items[id].user == user && |GoTrim(rawTitle)| <= 200 && |GoTrim(rawBody)| <= 20_000
            && (forall i :: 0 <= i < |raws| ==> |GoSquash(raws[i])| <= 40) && |Normalized(raws, lower)| <= 12)
  {
    hide GoTrim, GoSquash, Normalized, Insertable, WithTags, JoinedTags, TagsOf, ShowsTags;
    var id := GoTrim(rawItem);
    var (db', r) := Apply(db, UpdateItem(user, rawItem, rawTitle, rawBody, raws, now), lower);
    if r.ItemSaved? {
      JoinedTagsAre(db', user, id, WithoutItem(db.itemTags, id), Normalized(raws, lower), now);
    }
  }

  lemma JoinedWithout(db: Db, db': Db, user: Id, id: Id, i: Id)
    requires db'.items == db.items - {id} && db'.itemTags == WithoutItem(db.itemTags, id) && i != id
    ensures JoinedTags(db', user, i) == JoinedTags(db, user, i)
  {
  }

  /** Deleting an own item: it is not found any more; the others keep their fields and tags. */
  lemma DeletedItemIsGone(db: Db, user: Id, rawItem: Text, lower: nat -> nat)
    ensures var (db', r) := Apply(db, DeleteItem(user, rawItem), lower);
      var id := GoTrim(rawItem);
      && db' == db.(items := db'.items, itemTags := db'.itemTags)
      && (r == Done <==> id in db.items && db.items[id].user == user)
      && (r != Done ==> r == Failed(ItemNotFound) && db' == db)
      && (r == Done ==> db'.items == db.items - {id} && Select(db', ItemById(user, rawItem)) == Refused(ItemNotFound))
      && (r == Done ==> forall i :: i != id ==> JoinedTags(db', user, i) == JoinedTags(db, user, i))
  {
    hide GoTrim, JoinedTags, WithoutItem;
    var id := GoTrim(rawItem);
    var (db', r) := Apply(db, DeleteItem(user, rawItem), lower);
    if r == Done {
      forall i | i != id ensures JoinedTags(db', user, i) == JoinedTags(db, user, i) {
        JoinedWithout(db, db', user, id, i);
      }
    }
  }

  /** Exactly these drafts are good. */
  lemma GoodDrafts(d: Draft, user: Id, now: int, lower: nat -> nat)
    ensures var c := Check(d, user, now, lower);
      c.Good? <==>
        && ValidBook(d.book) && d.kind.Some? && 1 <= |GoTrim(d.locator)| <= 4000 && |GoTrim(d.locatorLabel)| <= 200
        && |GoTrim(d.title)| <= 200 && |GoTrim(d.body)| <= 20_000 && |GoTrim(d.excerpt)| <= 2000
        && (forall i :: 0 <= i < |d.tags| ==> |GoSquash(d.tags[i])| <= 40) && |Normalized(d.tags, lower)| <= 12
    ensures var c := Check(d, user, now, lower);
      c.Bad? && !c.why.BadTag? ==>
        c.why == (
            if !ValidBook(d.book) then BadBook
            else if d.kind.None? then BadKind
            else if GoTrim(d.locator) == [] || |GoTrim(d.locator)| > 4000 then BadLocator
            else if |GoTrim(d.locatorLabel)| > 200 then BadLabel
            else if |GoTrim(d.title)| > 200 then BadTitle
            else if |GoTrim(d.body)| > 20_000 then BadBody
            else BadExcerpt)
  {
    hide GoTrim, BookId, Normalized, GoSquash;
    BookIdIs(d.book);
  }

  // ---------- which rows a limited query returns ----------

  lemma ActivityRowsAre(db: Db, user: Id, row: Row)
    requires row in ActivityRows(db, user)
    ensures row.BookRow? && (user, row.book) in db.activity && row.at == db.activity[(user, row.book)]
  {
    var k :| k in db.activity && k.0 == user && row == BookRow(k.1, db.activity[k]);
    assert k == (user, row.book);
  }

  /** The recent books: at most as many as asked for (12 if that is no positive
      number, and never more than 100), the latest first, and none is left out
      for one that was read earlier. */
  lemma RecentAnswers(db: Db, user: Id, limit: int, a: seq<Row>)
    requires Answers(db, RecentBooks(user, limit), a)
    ensures |a| <= if limit < 1 then 12 else if limit > 100 then 100 else limit
    ensures |a| < (if limit < 1 then 12 else if limit > 100 then 100 else limit) ==> |a| == |ActivityRows(db, user)|
    ensures forall i :: 0 <= i < |a| ==>
      a[i].BookRow? && (user, a[i].book) in db.activity && a[i].at == db.activity[(user, a[i].book)]
    ensures forall i, j :: 0 <= i < j < |a| ==> a[i].at >= a[j].at && a[i].book != a[j].book
    ensures forall book, i ::
      (user, book) in db.activity && BookRow(book, db.activity[(user, book)]) !in a && 0 <= i < |a| ==>
        db.activity[(user, book)] <= a[i].at
  {
    hide ActivityRows;
    forall i | 0 <= i < |a|
      ensures a[i].BookRow? && (user, a[i].book) in db.activity && a[i].at == db.activity[(user, a[i].book)]
    {
      assert a[i] in a;
      ActivityRowsAre(db, user, a[i]);
    }
    forall book, i |
      (user, book) in db.activity && BookRow(book, db.activity[(user, book)]) !in a && 0 <= i < |a|
      ensures db.activity[(user, book)] <= a[i].at
    {
      RowOfActivity(db, user, book, db.activity[(user, book)]);
      assert a[i] in a && !Before(RecentBooks(user, limit), BookRow(book, db.activity[(user, book)]), a[i]);
    }
    forall i, j | 0 <= i < j < |a| ensures a[i].at >= a[j].at && a[i].book != a[j].book {
      assert !Before(RecentBooks(user, limit), a[j], a[i]) && a[i] != a[j];
    }
  }
}
