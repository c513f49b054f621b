/** The private library of every account: books read, lists, tags, bookmarks
    and notes (auth/library.go, auth/reading.go). Each method is one atomic step
    on the tables. Random ids and clock readings in seconds are inputs. Texts
    are sequences of code points. */
module PersonalLibrary {
  import opened Outcomes
  import opened Text
  import opened R = ReadingTags

  const MAX_LIST_NAME: nat := 80
  const MAX_BOOK_ID: nat := 200

  type Id = Text

  datatype Kind = Bookmark | Note

  datatype BookList = BookList(user: Id, name: Text, createdAt: int, updatedAt: int)

  datatype Item = Item(user: Id, book: Text, kind: Kind, locator: Text, locatorLabel: Text, title: Text, body: Text,
                       excerpt: Text, createdAt: int, updatedAt: int)

  /** The tables. Rows with a primary key of several columns are keyed by it;
      a tag in a key is without case. */
  datatype Db = Db(
    activity: map<(Id, Text), int>,
    lists: map<Id, BookList>,
    listItems: map<(Id, Text), int>,
    tags: map<(Id, Text, Text), TagRow>,
    items: map<Id, Item>,
    itemTags: TagTable)

  datatype Failure =
    | BadBook | BadListName | ListNameExists | ListNotFound | BadTag(why: R.Error) | BadKind
    | BadLocator | BadLabel | BadTitle | BadBody | BadExcerpt | ItemNotFound | Constraint

  /** What a call returns: what it stored, or why it failed. */
  datatype Outcome =
    | Done
    | ListMade(id: Id, list: BookList)
    | ItemSaved(id: Id, item: Item, tags: map<Text, Text>)
    | Failed(why: Failure)

  // ---------- normal forms ----------

  function BookId(raw: Text): Option<Text> {
    var id := GoTrim(raw);
    if id == [] || Utf8Size(id) > MAX_BOOK_ID then None else Some(id)
  }

  function ListName(raw: Text): Option<Text> {
    var name := GoSquash(raw);
    if name == [] || |name| > MAX_LIST_NAME then None else Some(name)
  }

  function ReadingText(raw: Text, maximum: nat): Option<Text> {
    var value := GoTrim(raw);
    if |value| > maximum then None else Some(value)
  }

  function DefaultTitle(kind: Kind): Text {
    if kind == Bookmark then [0x42, 0x6F, 0x6F, 0x6B, 0x6D, 0x61, 0x72, 0x6B] else [0x4E, 0x6F, 0x74, 0x65]
  }

  function TitleOr(title: Text, kind: Kind): Text { if title == [] then DefaultTitle(kind) else title }

  ghost function TagsFailure(raws: seq<Text>, lower: nat -> nat): Failure {
    if exists i: nat :: TooLongAt(raws, lower, i) then BadTag(TagTooLong) else BadTag(TooManyTags)
  }

  /** The fields of a new bookmark or note as the caller sends them; `kind` is None when it is unknown. */
  datatype Draft = Draft(book: Text, kind: Option<Kind>, locator: Text, locatorLabel: Text, title: Text, body: Text,
                         excerpt: Text, tags: seq<Text>)

  datatype Checked = Good(item: Item, tags: seq<Text>) | Bad(why: Failure)

  ghost function Check(d: Draft, user: Id, now: int, lower: nat -> nat): Checked {
    var book := BookId(d.book);
    var locator, caption := ReadingText(d.locator, 4000), ReadingText(d.locatorLabel, 200);
    var title, body, excerpt := ReadingText(d.title, 200), ReadingText(d.body, 20000), ReadingText(d.excerpt, 2000);
    if book.None? then Bad(BadBook)
    else if d.kind.None? then Bad(BadKind)
    else if locator.None? || locator.value == [] then Bad(BadLocator)
    else if caption.None? then Bad(BadLabel)
    else if title.None? then Bad(BadTitle)
    else if body.None? then Bad(BadBody)
    else if excerpt.None? then Bad(BadExcerpt)
    else if !Accepted(d.tags, lower) then Bad(TagsFailure(d.tags, lower))
    else Good(Item(user, book.value, d.kind.value, locator.value, caption.value, TitleOr(title.value, d.kind.value),
                   body.value, excerpt.value, now, now), Normalized(d.tags, lower))
  }

  // ---------- the calls ----------

  datatype Op =
    | RecordRead(user: Id, book: Text, now: int)
    | CreateList(user: Id, name: Text, id: Id, now: int)
    | DeleteList(user: Id, list: Text)
    | AddBook(user: Id, list: Text, book: Text, now: int)
    | RemoveBook(user: Id, list: Text, book: Text, now: int)
    | AddTag(user: Id, book: Text, tag: Text, now: int)
    | RemoveTag(user: Id, book: Text, tag: Text)
    | CreateItem(user: Id, draft: Draft, id: Id, now: int)
    | UpdateItem(user: Id, item: Text, title: Text, body: Text, tags: seq<Text>, now: int)
    | DeleteItem(user: Id, item: Text)

  predicate OwnsList(db: Db, user: Id, list: Id) { list in db.lists && db.lists[list].user == user }

  predicate OwnsItem(db: Db, user: Id, item: Id) { item in db.items && db.items[item].user == user }

  predicate NameTaken(lists: map<Id, BookList>, user: Id, name: Text) {
    exists l :: l in lists && lists[l].user == user && Fold(lists[l].name) == Fold(name)
  }

  function Touch(lists: map<Id, BookList>, list: Id, now: int): map<Id, BookList>
    requires list in lists
  {
    lists[list := lists[list].(updatedAt := now)]
  }

  function WithoutList(listItems: map<(Id, Text), int>, list: Id): map<(Id, Text), int> {
    map k | k in listItems && k.0 != list :: listItems[k]
  }

  function WithoutItem(itemTags: TagTable, item: Id): TagTable {
    map k | k in itemTags && k.0 != item :: itemTags[k]
  }

  /** The tags of one item: the key is the tag without case. */
  function TagsOf(itemTags: TagTable, item: Id): map<Text, Text> {
    map k | k in itemTags && k.0 == item :: k.1 := itemTags[k].tag
  }

  function Fail(db: Db, why: Failure): (Db, Outcome) { (db, Failed(why)) }

  function DoRecordRead(db: Db, user: Id, rawBook: Text, now: int): (Db, Outcome) {
    match BookId(rawBook)
    case None => Fail(db, BadBook)
    case Some(book) => (db.(activity := db.activity[(user, book) := now]), Done)
  }

  /** A clash of ids is reported like a clash of names. */
  function DoCreateList(db: Db, user: Id, rawName: Text, id: Id, now: int): (Db, Outcome) {
    match ListName(rawName)
    case None => Fail(db, BadListName)
    case Some(name) =>
      if NameTaken(db.lists, user, name) || id in db.lists then Fail(db, ListNameExists)
      else
        var list := BookList(user, name, now, now);
        (db.(lists := db.lists[id := list]), ListMade(id, list))
  }

  function DoDeleteList(db: Db, user: Id, rawList: Text): (Db, Outcome) {
    var list := GoTrim(rawList);
    if !OwnsList(db, user, list) then Fail(db, ListNotFound)
    else (db.(lists := db.lists - {list}, listItems := WithoutList(db.listItems, list)), Done)
  }

  /** A book that is in the list already keeps its time. */
  function DoAddBook(db: Db, user: Id, rawList: Text, rawBook: Text, now: int): (Db, Outcome) {
    var list := GoTrim(rawList);
    match BookId(rawBook)
    case None => Fail(db, BadBook)
    case Some(book) =>
      if !OwnsList(db, user, list) then Fail(db, ListNotFound)
      else
        var listItems := if (list, book) in db.listItems then db.listItems else db.listItems[(list, book) := now];
        (db.(lists := Touch(db.lists, list, now), listItems := listItems), Done)
  }

  function DoRemoveBook(db: Db, user: Id, rawList: Text, rawBook: Text, now: int): (Db, Outcome) {
    var list := GoTrim(rawList);
    match BookId(rawBook)
    case None => Fail(db, BadBook)
    case Some(book) =>
      if !OwnsList(db, user, list) then Fail(db, ListNotFound)
      else (db.(lists := Touch(db.lists, list, now), listItems := db.listItems - {(list, book)}), Done)
  }

  function DoAddTag(db: Db, user: Id, rawBook: Text, rawTag: Text, now: int): (Db, Outcome) {
    match BookId(rawBook)
    case None => Fail(db, BadBook)
    case Some(book) =>
      match NormalizeTag(rawTag)
      case Err(e) => Fail(db, BadTag(e))
      case Ok(tag) =>
        var key := (user, book, Fold(tag));
        (if key in db.tags then db else db.(tags := db.tags[key := TagRow(tag, now)]), Done)
  }

  function DoRemoveTag(db: Db, user: Id, rawBook: Text, rawTag: Text): (Db, Outcome) {
    match BookId(rawBook)
    case None => Fail(db, BadBook)
    case Some(book) =>
      match NormalizeTag(rawTag)
      case Err(e) => Fail(db, BadTag(e))
      case Ok(tag) => (db.(tags := db.tags - {(user, book, Fold(tag))}), Done)
  }

  ghost function DoCreateItem(db: Db, user: Id, draft: Draft, id: Id, now: int, lower: nat -> nat): (Db, Outcome) {
    match Check(draft, user, now, lower)
    case Bad(why) => Fail(db, why)
    case Good(item, tags) =>
      if id in db.items || !Insertable(db.itemTags, id, tags) then Fail(db, Constraint)
      else
        var itemTags := WithTags(db.itemTags, id, tags, now);
        (db.(items := db.items[id := item], itemTags := itemTags), ItemSaved(id, item, TagsOf(itemTags, id)))
  }

  function Edited(item: Item, title: Text, body: Text, now: int): Item {
    item.(title := TitleOr(title, item.kind), body := body, updatedAt := now)
  }

  ghost function DoUpdateItem(db: Db, user: Id, rawItem: Text, rawTitle: Text, rawBody: Text, raws: seq<Text>, now: int,
                              lower: nat -> nat): (Db, Outcome)
  {
    var id, title, body := GoTrim(rawItem), ReadingText(rawTitle, 200), ReadingText(rawBody, 20000);
    if title.None? then Fail(db, BadTitle)
    else if body.None? then Fail(db, BadBody)
    else if !Accepted(raws, lower) then Fail(db, TagsFailure(raws, lower))
    else if !OwnsItem(db, user, id) then Fail(db, ItemNotFound)
    else
      var rest, tags := WithoutItem(db.itemTags, id), Normalized(raws, lower);
      if !Insertable(rest, id, tags) then Fail(db, Constraint)
      else
        var item := Edited(db.items[id], title.value, body.value, now);
        var itemTags := WithTags(rest, id, tags, now);
        (db.(items := db.items[id := item], itemTags := itemTags), ItemSaved(id, item, TagsOf(itemTags, id)))
  }

  function DoDeleteItem(db: Db, user: Id, rawItem: Text): (Db, Outcome) {
    var id := GoTrim(rawItem);
    if !OwnsItem(db, user, id) then Fail(db, ItemNotFound)
    else (db.(items := db.items - {id}, itemTags := WithoutItem(db.itemTags, id)), Done)
  }

  ghost function Apply(db: Db, op: Op, lower: nat -> nat): (Db, Outcome) {
    match op
    case RecordRead(user, book, now) => DoRecordRead(db, user, book, now)
    case CreateList(user, name, id, now) => DoCreateList(db, user, name, id, now)
    case DeleteList(user, list) => DoDeleteList(db, user, list)
    case AddBook(user, list, book, now) => DoAddBook(db, user, list, book, now)
    case RemoveBook(user, list, book, now) => DoRemoveBook(db, user, list, book, now)
    case AddTag(user, book, tag, now) => DoAddTag(db, user, book, tag, now)
    case RemoveTag(user, book, tag) => DoRemoveTag(db, user, book, tag)
    case CreateItem(user, draft, id, now) => DoCreateItem(db, user, draft, id, now, lower)
    case UpdateItem(user, item, title, body, tags, now) => DoUpdateItem(db, user, item, title, body, tags, now, lower)
    case DeleteItem(user, item) => DoDeleteItem(db, user, item)
  }

  // ---------- one account's part of the tables ----------

  function OwnActivity(m: map<(Id, Text), int>, u: Id): map<(Id, Text), int> { map k | k in m && k.0 == u :: m[k] }

  function OwnLists(m: map<Id, BookList>, u: Id): map<Id, BookList> { map l | l in m && m[l].user == u :: m[l] }

  function OwnListItems(lists: map<Id, BookList>, m: map<(Id, Text), int>, u: Id): map<(Id, Text), int> {
    map k | k in m && k.0 in lists && lists[k.0].user == u :: m[k]
  }

  function OwnTags(m: map<(Id, Text, Text), TagRow>, u: Id): map<(Id, Text, Text), TagRow> {
    map k | k in m && k.0 == u :: m[k]
  }

  function OwnItems(m: map<Id, Item>, u: Id): map<Id, Item> { map i | i in m && m[i].user == u :: m[i] }

  predicate Mine(items: map<Id, Item>, u: Id, i: Id) { i in items && items[i].user == u }

  function OwnItemTags(items: map<Id, Item>, m: TagTable, u: Id): TagTable {
    map k | k in m && Mine(items, u, k.0) :: m[k]
  }

  function Restrict(db: Db, u: Id): Db {
    Db(OwnActivity(db.activity, u), OwnLists(db.lists, u), OwnListItems(db.lists, db.listItems, u), OwnTags(db.tags, u),
       OwnItems(db.items, u), OwnItemTags(db.items, db.itemTags, u))
  }

  /** Rows of lists and tags of items belong to a list or item that exists. */
  ghost predicate NoOrphans(db: Db) {
    && (forall k :: k in db.listItems ==> k.0 in db.lists)
    && (forall k :: k in db.itemTags ==> k.0 in db.items)
  }

  ghost predicate Fresh(db: Db, op: Op) {
    && (op.CreateList? ==> op.id !in db.lists)
    && (op.CreateItem? ==> op.id !in db.items)
  }

  // ---------- every call works on the caller's part only ----------

  /** The call does to the caller's part what it would do if nothing else were
      stored, and leaves every other account's part alone. */
  ghost predicate Local(db: Db, op: Op, u: Id, lower: nat -> nat) {
    var (db', outcome) := Apply(db, op, lower);
    if op.user == u then Apply(Restrict(db, u), op, lower) == (Restrict(db', u), outcome)
    else Restrict(db', u) == Restrict(db, u)
  }

  lemma ActivityLocal(m: map<(Id, Text), int>, user: Id, book: Text, now: int, u: Id)
    ensures OwnActivity(m[(user, book) := now], u)
         == if user == u then OwnActivity(m, u)[(user, book) := now] else OwnActivity(m, u)
  {
  }

  lemma RecordReadLocal(db: Db, op: Op, u: Id, lower: nat -> nat)
    requires op.RecordRead?
    ensures Local(db, op, u, lower)
  {
    hide BookId, OwnLists, OwnListItems, OwnTags, OwnItems, OwnItemTags;
    var book := BookId(op.book);
    if book.Some? { ActivityLocal(db.activity, op.user, book.value, op.now, u); }
  }

  lemma NameTakenLocal(lists: map<Id, BookList>, user: Id, name: Text, u: Id)
    ensures user == u ==> (NameTaken(OwnLists(lists, u), user, name) <==> NameTaken(lists, user, name))
  {
    hide Fold;
    if user == u && NameTaken(lists, user, name) {
      var l :| l in lists && lists[l].user == user && Fold(lists[l].name) == Fold(name);
      assert l in OwnLists(lists, u);
    }
  }

  lemma NewListItemsLocal(db: Db, id: Id, list: BookList, u: Id)
    requires NoOrphans(db) && id !in db.lists
    ensures OwnListItems(db.lists[id := list], db.listItems, u) == OwnListItems(db.lists, db.listItems, u)
  {
  }

  lemma NewListLocal(db: Db, id: Id, list: BookList, u: Id)
    requires NoOrphans(db) && id !in db.lists
    ensures id !in OwnLists(db.lists, u)
    ensures OwnLists(db.lists[id := list], u)
         == if list.user == u then OwnLists(db.lists, u)[id := list] else OwnLists(db.lists, u)
    ensures OwnListItems(db.lists[id := list], db.listItems, u) == OwnListItems(db.lists, db.listItems, u)
  {
    hide OwnListItems;
    NewListItemsLocal(db, id, list, u);
  }

  lemma CreateListLocal(db: Db, op: Op, u: Id, lower: nat -> nat)
    requires op.CreateList? && NoOrphans(db) && Fresh(db, op)
    ensures Local(db, op, u, lower)
  {
    hide ListName, OwnActivity, OwnLists, OwnListItems, OwnTags, OwnItems, OwnItemTags, NameTaken;
    var name := ListName(op.name);
    if name.Some? {
      var list := BookList(op.user, name.value, op.now, op.now);
      NameTakenLocal(db.lists, op.user, name.value, u);
      NewListLocal(db, op.id, list, u);
    }
  }

  lemma OwnsListLocal(db: Db, u: Id, list: Id)
    ensures OwnsList(Restrict(db, u), u, list) <==> OwnsList(db, u, list)
    ensures OwnsList(db, u, list) ==> OwnLists(db.lists, u)[list] == db.lists[list]
  {
  }

  lemma GoneListLocal(db: Db, list: Id, u: Id)
    requires list in db.lists
    ensures OwnLists(db.lists - {list}, u) == OwnLists(db.lists, u) - {list}
    ensures db.lists[list].user != u ==> OwnLists(db.lists - {list}, u) == OwnLists(db.lists, u)
    ensures OwnListItems(db.lists - {list}, WithoutList(db.listItems, list), u)
         == WithoutList(OwnListItems(db.lists, db.listItems, u), list)
    ensures db.lists[list].user != u ==>
      WithoutList(OwnListItems(db.lists, db.listItems, u), list) == OwnListItems(db.lists, db.listItems, u)
  {
  }

  lemma DeleteListLocal(db: Db, op: Op, u: Id, lower: nat -> nat)
    requires op.DeleteList?
    ensures Local(db, op, u, lower)
  {
    hide GoTrim, OwnActivity, OwnLists, OwnListItems, OwnTags, OwnItems, OwnItemTags, WithoutList;
    var list := GoTrim(op.list);
    OwnsListLocal(db, u, list);
    if OwnsList(db, op.user, list) { GoneListLocal(db, list, u); }
  }

  lemma TouchLocal(db: Db, list: Id, now: int, listItems: map<(Id, Text), int>, u: Id)
    requires list in db.lists
    ensures db.lists[list].user == u ==> list in OwnLists(db.lists, u)
    ensures OwnLists(Touch(db.lists, list, now), u)
         == if db.lists[list].user == u then OwnLists(db.lists, u)[list := db.lists[list].(updatedAt := now)]
            else OwnLists(db.lists, u)
    ensures OwnListItems(Touch(db.lists, list, now), listItems, u) == OwnListItems(db.lists, listItems, u)
  {
  }

  lemma ListItemLocal(db: Db, list: Id, book: Text, now: int, u: Id)
    requires list in db.lists
    ensures var mine := OwnListItems(db.lists, db.listItems, u);
      if db.lists[list].user == u then
        && ((list, book) in mine <==> (list, book) in db.listItems)
        && OwnListItems(db.lists, db.listItems[(list, book) := now], u) == mine[(list, book) := now]
        && OwnListItems(db.lists, db.listItems - {(list, book)}, u) == mine - {(list, book)}
      else
        && OwnListItems(db.lists, db.listItems[(list, book) := now], u) == mine
        && OwnListItems(db.lists, db.listItems - {(list, book)}, u) == mine
  {
  }

  lemma AddBookLocal(db: Db, op: Op, u: Id, lower: nat -> nat)
    requires op.AddBook?
    ensures Local(db, op, u, lower)
  {
    hide GoTrim, BookId, OwnActivity, OwnLists, OwnListItems, OwnTags, OwnItems, OwnItemTags;
    var list, book := GoTrim(op.list), BookId(op.book);
    OwnsListLocal(db, u, list);
    if book.Some? && OwnsList(db, op.user, list) {
      TouchLocal(db, list, op.now, Apply(db, op, lower).0.listItems, u);
      ListItemLocal(db, list, book.value, op.now, u);
    }
  }

  lemma RemoveBookLocal(db: Db, op: Op, u: Id, lower: nat -> nat)
    requires op.RemoveBook?
    ensures Local(db, op, u, lower)
  {
    hide GoTrim, BookId, OwnActivity, OwnLists, OwnListItems, OwnTags, OwnItems, OwnItemTags;
    var list, book := GoTrim(op.list), BookId(op.book);
    OwnsListLocal(db, u, list);
    if book.Some? && OwnsList(db, op.user, list) {
      TouchLocal(db, list, op.now, Apply(db, op, lower).0.listItems, u);
      ListItemLocal(db, list, book.value, op.now, u);
    }
  }

  lemma TagLocal(m: map<(Id, Text, Text), TagRow>, key: (Id, Text, Text), row: TagRow, u: Id)
    ensures key.0 == u ==> (key in OwnTags(m, u) <==> key in m)
    ensures OwnTags(m[key := row], u) == if key.0 == u then OwnTags(m, u)[key := row] else OwnTags(m, u)
    ensures OwnTags(m - {key}, u) == OwnTags(m, u) - {key}
    ensures key.0 != u ==> OwnTags(m - {key}, u) == OwnTags(m, u)
  {
  }

  lemma AddTagLocal(db: Db, op: Op, u: Id, lower: nat -> nat)
    requires op.AddTag?
    ensures Local(db, op, u, lower)
  {
    hide BookId, NormalizeTag, Fold, OwnActivity, OwnLists, OwnListItems, OwnTags, OwnItems, OwnItemTags;
    var book, tag := BookId(op.book), NormalizeTag(op.tag);
    if book.Some? && tag.Ok? {
      TagLocal(db.tags, (op.user, book.value, Fold(tag.value)), TagRow(tag.value, op.now), u);
    }
  }

  lemma RemoveTagLocal(db: Db, op: Op, u: Id, lower: nat -> nat)
    requires op.RemoveTag?
    ensures Local(db, op, u, lower)
  {
    hide BookId, NormalizeTag, Fold, OwnActivity, OwnLists, OwnListItems, OwnTags, OwnItems, OwnItemTags;
    var book, tag := BookId(op.book), NormalizeTag(op.tag);
    if book.Some? && tag.Ok? {
      TagLocal(db.tags, (op.user, book.value, Fold(tag.value)), TagRow(tag.value, 0), u);
    }
  }

  // ---------- bookmarks and notes ----------

  lemma OwnsItemLocal(db: Db, u: Id, item: Id)
    ensures OwnsItem(Restrict(db, u), u, item) <==> OwnsItem(db, u, item)
    ensures OwnsItem(db, u, item) ==> OwnItems(db.items, u)[item] == db.items[item]
  {
  }

  lemma SetItemLocal(items: map<Id, Item>, id: Id, item: Item, u: Id)
    requires id in items ==> items[id].user == item.user
    ensures OwnItems(items[id := item], u)
         == if item.user == u then OwnItems(items, u)[id := item] else OwnItems(items, u)
  {
  }

  lemma SameTags(items: map<Id, Item>, items': map<Id, Item>, m: TagTable, m': TagTable, u: Id)
    requires forall i :: Mine(items', u, i) == Mine(items, u, i)
    requires forall k :: k in m && Mine(items, u, k.0) ==> k in m' && m'[k] == m[k]
    requires forall k :: k in m' && Mine(items, u, k.0) ==> k in m
    ensures OwnItemTags(items', m', u) == OwnItemTags(items, m, u)
  {
    hide Mine;
  }

  /** The tags of one item, replaced. */
  lemma SetTagsLocal(db: Db, id: Id, item: Item, itemTags: TagTable, u: Id)
    requires NoOrphans(db) && (id in db.items ==> db.items[id].user == item.user)
    requires forall k :: k in itemTags && k.0 != id ==> k in db.itemTags && itemTags[k] == db.itemTags[k]
    requires forall k :: k in db.itemTags && k.0 != id ==> k in itemTags
    ensures item.user != u ==> OwnItemTags(db.items[id := item], itemTags, u) == OwnItemTags(db.items, db.itemTags, u)
  {
    if item.user != u {
      assert forall i :: Mine(db.items[id := item], u, i) == Mine(db.items, u, i);
      SameTags(db.items, db.items[id := item], db.itemTags, itemTags, u);
    }
  }

  lemma OneTagLocal(items: map<Id, Item>, m: TagTable, key: (Text, Text), row: TagRow, u: Id)
    requires key.0 in items && items[key.0].user == u
    ensures OwnItemTags(items, m[key := row], u) == OwnItemTags(items, m, u)[key := row]
  {
  }

  /** Adding the tags and taking the account's part can be exchanged. */
  lemma {:induction false} WithTagsLocal(items: map<Id, Item>, m: TagTable, id: Id, tags: seq<Text>, now: int, u: Id)
    requires id in items && items[id].user == u
    ensures OwnItemTags(items, WithTags(m, id, tags, now), u) == WithTags(OwnItemTags(items, m, u), id, tags, now)
  {
    hide Fold;
    if tags != [] {
      var rest, last := tags[..|tags| - 1], tags[|tags| - 1];
      WithTagsLocal(items, m, id, rest, now, u);
      OneTagLocal(items, WithTags(m, id, rest, now), (id, Fold(last)), TagRow(last, now), u);
    }
  }

  lemma InsertableLocal(items: map<Id, Item>, m: TagTable, id: Id, tags: seq<Text>, u: Id)
    requires id in items && items[id].user == u
    ensures Insertable(OwnItemTags(items, m, u), id, tags) <==> Insertable(m, id, tags)
  {
    hide Fold, DistinctFolds;
    assert forall t :: (id, t) in OwnItemTags(items, m, u) <==> (id, t) in m;
  }

  lemma TagsOfLocal(items: map<Id, Item>, m: TagTable, id: Id, u: Id)
    requires id in items && items[id].user == u
    ensures TagsOf(OwnItemTags(items, m, u), id) == TagsOf(m, id)
  {
  }

  lemma NewItemTagsLocal(db: Db, id: Id, item: Item, u: Id)
    requires NoOrphans(db) && id !in db.items
    ensures OwnItemTags(db.items[id := item], db.itemTags, u) == OwnItemTags(db.items, db.itemTags, u)
  {
  }

  lemma NotOwned(items: map<Id, Item>, id: Id, u: Id)
    requires id !in items
    ensures id !in OwnItems(items, u)
  {
  }

  lemma CheckUser(d: Draft, user: Id, now: int, lower: nat -> nat)
    ensures Check(d, user, now, lower).Good? ==> Check(d, user, now, lower).item.user == user
  {
    hide BookId, ReadingText, TitleOr, Accepted, Normalized, TagsFailure;
  }

  lemma {:induction false} WithTagsOthers(m: TagTable, id: Id, tags: seq<Text>, now: int)
    ensures var m' := WithTags(m, id, tags, now);
      && (forall k :: k in m' && k.0 != id ==> k in m && m'[k] == m[k])
      && (forall k :: k in m ==> k in m')
  {
    hide Fold;
    if tags != [] { WithTagsOthers(m, id, tags[..|tags| - 1], now); }
  }

  lemma CreateItemLocal(db: Db, op: Op, u: Id, lower: nat -> nat)
    requires op.CreateItem? && NoOrphans(db) && Fresh(db, op)
    ensures Local(db, op, u, lower)
  {
    hide Check, OwnActivity, OwnLists, OwnListItems, OwnTags, OwnItems, OwnItemTags, WithTags, Insertable;
    hide TagsOf, NoOrphans;
    var c := Check(op.draft, op.user, op.now, lower);
    CheckUser(op.draft, op.user, op.now, lower);
    if c.Good? {
      var items := db.items[op.id := c.item];
      SetItemLocal(db.items, op.id, c.item, u);
      NewItemTagsLocal(db, op.id, c.item, u);
      var itemTags := WithTags(db.itemTags, op.id, c.tags, op.now);
      if op.user == u {
        OwnsItemLocal(db, u, op.id);
        InsertableLocal(items, db.itemTags, op.id, c.tags, u);
        WithTagsLocal(items, db.itemTags, op.id, c.tags, op.now, u);
        TagsOfLocal(items, itemTags, op.id, u);
        NotOwned(db.items, op.id, u);
      } else {
        WithTagsOthers(db.itemTags, op.id, c.tags, op.now);
        SetTagsLocal(db, op.id, c.item, itemTags, u);
      }
    }
  }

  lemma WithoutItemLocal(items: map<Id, Item>, m: TagTable, id: Id, u: Id)
    ensures OwnItemTags(items, WithoutItem(m, id), u) == WithoutItem(OwnItemTags(items, m, u), id)
  {
  }

  lemma KeptItemTagsLocal(items: map<Id, Item>, m: TagTable, id: Id, item: Item, u: Id)
    requires id in items && item.user == items[id].user
    ensures OwnItemTags(items[id := item], m, u) == OwnItemTags(items, m, u)
  {
  }

  lemma WithoutFacts(m: TagTable, id: Id)
    ensures forall k :: k in WithoutItem(m, id) <==> k in m && k.0 != id
    ensures forall k :: k in WithoutItem(m, id) ==> WithoutItem(m, id)[k] == m[k]
  {
  }

  /** Replacing the tags of an item, seen from its owner and from everybody else. */
  lemma ReplaceTagsLocal(db: Db, id: Id, item: Item, tags: seq<Text>, now: int, u: Id)
    requires NoOrphans(db) && id in db.items && item.user == db.items[id].user
    ensures var rest := WithoutItem(db.itemTags, id);
      var itemTags := WithTags(rest, id, tags, now);
      var mine := OwnItemTags(db.items, db.itemTags, u);
      if item.user == u then
        && (Insertable(WithoutItem(mine, id), id, tags) <==> Insertable(rest, id, tags))
        && OwnItemTags(db.items[id := item], itemTags, u) == WithTags(WithoutItem(mine, id), id, tags, now)
        && TagsOf(WithTags(WithoutItem(mine, id), id, tags, now), id) == TagsOf(itemTags, id)
      else
        OwnItemTags(db.items[id := item], itemTags, u) == mine
  {
    hide OwnItemTags, WithTags, Insertable, TagsOf, NoOrphans, WithoutItem;
    var rest := WithoutItem(db.itemTags, id);
    var itemTags := WithTags(rest, id, tags, now);
    if item.user == u {
      WithoutItemLocal(db.items, db.itemTags, id, u);
      InsertableLocal(db.items, rest, id, tags, u);
      WithTagsLocal(db.items, rest, id, tags, now, u);
      TagsOfLocal(db.items, itemTags, id, u);
      KeptItemTagsLocal(db.items, itemTags, id, item, u);
    } else {
      WithTagsOthers(rest, id, tags, now);
      WithoutFacts(db.itemTags, id);
      SetTagsLocal(db, id, item, itemTags, u);
    }
  }

  lemma UpdateItemLocal(db: Db, op: Op, u: Id, lower: nat -> nat)
    requires op.UpdateItem? && NoOrphans(db)
    ensures Local(db, op, u, lower)
  {
    hide GoTrim, ReadingText, TitleOr, Accepted, Normalized, TagsFailure, OwnActivity, OwnLists, OwnListItems;
    hide OwnTags, OwnItems, OwnItemTags;
    hide WithTags, Insertable, TagsOf, NoOrphans, WithoutItem;
    var id, title, body := GoTrim(op.item), ReadingText(op.title, 200), ReadingText(op.body, 20000);
    OwnsItemLocal(db, u, id);
    if title.Some? && body.Some? && Accepted(op.tags, lower) && OwnsItem(db, op.user, id) {
      var item := Edited(db.items[id], title.value, body.value, op.now);
      SetItemLocal(db.items, id, item, u);
      ReplaceTagsLocal(db, id, item, Normalized(op.tags, lower), op.now, u);
    }
  }

  lemma GoneItemLocal(db: Db, id: Id, u: Id)
    requires id in db.items
    ensures OwnItems(db.items - {id}, u) == OwnItems(db.items, u) - {id}
    ensures db.items[id].user != u ==> OwnItems(db.items - {id}, u) == OwnItems(db.items, u)
    ensures OwnItemTags(db.items - {id}, WithoutItem(db.itemTags, id), u)
         == WithoutItem(OwnItemTags(db.items, db.itemTags, u), id)
    ensures db.items[id].user != u ==>
      WithoutItem(OwnItemTags(db.items, db.itemTags, u), id) == OwnItemTags(db.items, db.itemTags, u)
  {
  }

  lemma DeleteItemLocal(db: Db, op: Op, u: Id, lower: nat -> nat)
    requires op.DeleteItem?
    ensures Local(db, op, u, lower)
  {
    hide GoTrim, OwnActivity, OwnLists, OwnListItems, OwnTags, OwnItems, OwnItemTags, WithoutItem;
    var id := GoTrim(op.item);
    OwnsItemLocal(db, u, id);
    if OwnsItem(db, op.user, id) { GoneItemLocal(db, id, u); }
  }

  lemma EveryCallIsLocal(db: Db, op: Op, u: Id, lower: nat -> nat)
    requires NoOrphans(db) && Fresh(db, op)
    ensures Local(db, op, u, lower)
  {
    hide Local, NoOrphans, Fresh;
    match op
    case RecordRead(_, _, _) => RecordReadLocal(db, op, u, lower);
    case CreateList(_, _, _, _) => CreateListLocal(db, op, u, lower);
    case DeleteList(_, _) => DeleteListLocal(db, op, u, lower);
    case AddBook(_, _, _, _) => AddBookLocal(db, op, u, lower);
    case RemoveBook(_, _, _, _) => RemoveBookLocal(db, op, u, lower);
    case AddTag(_, _, _, _) => AddTagLocal(db, op, u, lower);
    case RemoveTag(_, _, _) => RemoveTagLocal(db, op, u, lower);
    case CreateItem(_, _, _, _) => CreateItemLocal(db, op, u, lower);
    case UpdateItem(_, _, _, _, _, _) => UpdateItemLocal(db, op, u, lower);
    case DeleteItem(_, _) => DeleteItemLocal(db, op, u, lower);
  }

  // ---------- what every reachable library satisfies ----------

  predicate SameName(l: BookList, m: BookList) { l.user == m.user && Fold(l.name) == Fold(m.name) }

  ghost predicate UniqueNames(lists: map<Id, BookList>) {
    forall l, m :: l in lists && m in lists && SameName(lists[l], lists[m]) ==> l == m
  }

  ghost predicate FewTags(itemTags: TagTable) {
    forall i :: |TagsOf(itemTags, i)| <= MAX_TAGS
  }

  ghost predicate Sound(db: Db) { NoOrphans(db) && UniqueNames(db.lists) && FewTags(db.itemTags) }

  lemma NewNameUnique(lists: map<Id, BookList>, user: Id, name: Text, id: Id, now: int)
    requires UniqueNames(lists) && !NameTaken(lists, user, name)
    ensures UniqueNames(lists[id := BookList(user, name, now, now)])
  {
    hide Fold;
  }

  lemma ListsSound(db: Db, op: Op, lower: nat -> nat)
    requires Sound(db) && (op.CreateList? || op.DeleteList? || op.AddBook? || op.RemoveBook?)
    ensures Sound(Apply(db, op, lower).0)
  {
    hide FewTags, Fold, GoTrim, BookId, ListName, NameTaken;
    if op.CreateList? && ListName(op.name).Some? && !NameTaken(db.lists, op.user, ListName(op.name).value) {
      NewNameUnique(db.lists, op.user, ListName(op.name).value, op.id, op.now);
    }
  }

  lemma SetTagOf(m: TagTable, id: Id, key: Text, row: TagRow)
    ensures TagsOf(m[(id, key) := row], id) == TagsOf(m, id)[key := row.tag]
  {
  }

  lemma SetTagOfOther(m: TagTable, id: Id, key: Text, row: TagRow, i: Id)
    ensures i != id ==> TagsOf(m[(id, key) := row], i) == TagsOf(m, i)
  {
  }

  lemma OneMoreTag(m: TagTable, id: Id, key: Text, row: TagRow, i: Id)
    ensures i != id ==> TagsOf(m[(id, key) := row], i) == TagsOf(m, i)
    ensures |TagsOf(m[(id, key) := row], id)| <= |TagsOf(m, id)| + 1
  {
    hide TagsOf;
    SetTagOf(m, id, key, row);
    SetTagOfOther(m, id, key, row, i);
  }

  lemma {:induction false} TagsOfWithTags(m: TagTable, id: Id, tags: seq<Text>, now: int, i: Id)
    ensures i != id ==> TagsOf(WithTags(m, id, tags, now), i) == TagsOf(m, i)
    ensures |TagsOf(WithTags(m, id, tags, now), id)| <= |TagsOf(m, id)| + |tags|
  {
    hide Fold;
    if tags != [] {
      var rest, last := tags[..|tags| - 1], tags[|tags| - 1];
      TagsOfWithTags(m, id, rest, now, i);
      OneMoreTag(WithTags(m, id, rest, now), id, Fold(last), TagRow(last, now), i);
    }
  }

  lemma TagsOfWithout(m: TagTable, id: Id, i: Id)
    ensures TagsOf(WithoutItem(m, id), i) == if i == id then map[] else TagsOf(m, i)
  {
  }

  lemma ReplacedFew(m: TagTable, id: Id, tags: seq<Text>, now: int)
    requires FewTags(m) && |tags| <= MAX_TAGS
    ensures FewTags(WithoutItem(m, id)) && FewTags(WithTags(WithoutItem(m, id), id, tags, now))
  {
    hide TagsOf, WithTags, WithoutItem;
    forall i
      ensures |TagsOf(WithTags(WithoutItem(m, id), id, tags, now), i)| <= MAX_TAGS
      ensures |TagsOf(WithoutItem(m, id), i)| <= MAX_TAGS
    {
      TagsOfWithTags(WithoutItem(m, id), id, tags, now, i);
      TagsOfWithout(m, id, i);
      TagsOfWithout(m, id, id);
    }
  }

  lemma NoTagsYet(db: Db, id: Id)
    requires NoOrphans(db) && id !in db.items
    ensures WithoutItem(db.itemTags, id) == db.itemTags && !HasTags(db.itemTags, id)
  {
  }

  lemma CheckTags(op: Op, lower: nat -> nat)
    ensures op.CreateItem? && Check(op.draft, op.user, op.now, lower).Good? ==>
      Check(op.draft, op.user, op.now, lower).tags == Normalized(op.draft.tags, lower) && Accepted(op.draft.tags, lower)
    ensures op.CreateItem? && Check(op.draft, op.user, op.now, lower).Good? ==>
      |Check(op.draft, op.user, op.now, lower).tags| <= MAX_TAGS
    ensures op.UpdateItem? && Accepted(op.tags, lower) ==> |Normalized(op.tags, lower)| <= MAX_TAGS
  {
    hide BookId, ReadingText, TitleOr, Normalized, TagsFailure, AllShort;
  }

  lemma NoOrphansAfter(db: Db, id: Id, item: Item, tags: seq<Text>, now: int)
    requires NoOrphans(db)
    ensures NoOrphans(db.(items := db.items[id := item],
                          itemTags := WithTags(WithoutItem(db.itemTags, id), id, tags, now)))
  {
    hide WithTags, WithoutItem;
    WithTagsOthers(WithoutItem(db.itemTags, id), id, tags, now);
    WithoutFacts(db.itemTags, id);
  }

  lemma NoOrphansGone(db: Db, id: Id)
    requires NoOrphans(db)
    ensures NoOrphans(db.(items := db.items - {id}, itemTags := WithoutItem(db.itemTags, id)))
  {
  }

  lemma ItemsSound(db: Db, op: Op, lower: nat -> nat)
    requires Sound(db) && (op.CreateItem? || op.UpdateItem? || op.DeleteItem?)
    ensures Sound(Apply(db, op, lower).0)
  {
    hide UniqueNames, FewTags, GoTrim, Check, ReadingText, TitleOr, Insertable, TagsFailure, Accepted;
    hide Normalized, TagsOf, WithTags, WithoutItem, NoOrphans;
    var id := if op.CreateItem? then op.id else GoTrim(op.item);
    CheckTags(op, lower);
    match op
    case CreateItem(user, draft, id, now) =>
      var c := Check(draft, user, now, lower);
      if c.Good? && id !in db.items {
        NoTagsYet(db, id);
        ReplacedFew(db.itemTags, id, c.tags, now);
        NoOrphansAfter(db, id, c.item, c.tags, now);
      }
    case UpdateItem(user, item, title, body, tags, now) =>
      if Accepted(tags, lower) && OwnsItem(db, user, id) {
        ReplacedFew(db.itemTags, id, Normalized(tags, lower), now);
        NoOrphansAfter(db, id, Apply(db, op, lower).0.items[id], Normalized(tags, lower), now);
      }
    case DeleteItem(user, item) =>
      ReplacedFew(db.itemTags, id, [], 0);
      if OwnsItem(db, user, id) { NoOrphansGone(db, id); }
  }

  lemma OthersSound(db: Db, op: Op, lower: nat -> nat)
    requires Sound(db) && (op.RecordRead? || op.AddTag? || op.RemoveTag?)
    ensures Sound(Apply(db, op, lower).0)
  {
    hide BookId, NormalizeTag, Fold, UniqueNames, FewTags;
  }

  lemma CallKeepsSound(db: Db, op: Op, lower: nat -> nat)
    requires Sound(db)
    ensures Sound(Apply(db, op, lower).0)
  {
    hide Sound;
    if op.CreateList? || op.DeleteList? || op.AddBook? || op.RemoveBook? { ListsSound(db, op, lower); }
    else if op.CreateItem? || op.UpdateItem? || op.DeleteItem? { ItemsSound(db, op, lower); }
    else { OthersSound(db, op, lower); }
  }

  lemma CleanItem(m: TagTable, id: Id)
    ensures !HasTags(WithoutItem(m, id), id)
  {
  }

  lemma CheckNoConstraint(op: Op, lower: nat -> nat)
    ensures op.CreateItem? ==> Check(op.draft, op.user, op.now, lower) != Bad(Constraint)
  {
    hide BookId, ReadingText, TitleOr, Normalized, Accepted;
  }

  /** The call would store tags of which two are the same to the key. */
  ghost predicate StoresClash(db: Db, op: Op, lower: nat -> nat) {
    match op
    case CreateItem(user, draft, id, now) =>
      var c := Check(draft, user, now, lower);
      c.Good? && HasNulClash(c.tags)
    case UpdateItem(user, item, title, body, tags, now) =>
      && ReadingText(title, 200).Some? && ReadingText(body, 20000).Some? && Accepted(tags, lower)
      && OwnsItem(db, user, GoTrim(item)) && HasNulClash(Normalized(tags, lower))
    case _ => false
  }

  /** A call fails on a clash of keys exactly if its own tags clash. */
  lemma ConstraintExactly(db: Db, op: Op, lower: nat -> nat)
    requires Sound(db) && Fresh(db, op) && LowersAscii(lower)
    ensures Apply(db, op, lower).1 == Failed(Constraint) <==> StoresClash(db, op, lower)
  {
    hide UniqueNames, FewTags, GoTrim, Check, ReadingText, TitleOr, Insertable, Accepted, Normalized, TagsOf, WithTags;
    hide WithoutItem, NoOrphans, BookId, ListName, NormalizeTag, NameTaken, LowersAscii, HasNulClash;
    CheckTags(op, lower);
    CheckNoConstraint(op, lower);
    if op.CreateItem? {
      NoTagsYet(db, op.id);
      if Check(op.draft, op.user, op.now, lower).Good? {
        InsertableExactly(op.draft.tags, lower, db.itemTags, op.id);
      }
    } else if op.UpdateItem? && Accepted(op.tags, lower) {
      CleanItem(db.itemTags, GoTrim(op.item));
      InsertableExactly(op.tags, lower, WithoutItem(db.itemTags, GoTrim(op.item)), GoTrim(op.item));
    }
  }

  // ---------- runs ----------

  const EMPTY := Db(map[], map[], map[], map[], map[], map[])

  ghost function Run(ops: seq<Op>, lower: nat -> nat): Db {
    if ops == [] then EMPTY else Apply(Run(ops[..|ops| - 1], lower), ops[|ops| - 1], lower).0
  }

  /** The outcomes of the calls of one account, in order. */
  ghost function OwnOutcomes(ops: seq<Op>, u: Id, lower: nat -> nat): seq<Outcome> {
    if ops == [] then []
    else
      var rest, op := ops[..|ops| - 1], ops[|ops| - 1];
      OwnOutcomes(rest, u, lower) + if op.user == u then [Apply(Run(rest, lower), op, lower).1] else []
  }

  function OwnOps(ops: seq<Op>, u: Id): seq<Op> {
    if ops == [] then []
    else OwnOps(ops[..|ops| - 1], u) + if ops[|ops| - 1].user == u then [ops[|ops| - 1]] else []
  }

  /** Ids are random: no two lists and no two items are created under one id. */
  ghost predicate FreshIds(ops: seq<Op>) {
    && (forall m, n :: 0 <= m < n < |ops| && ops[m].CreateList? && ops[n].CreateList? ==> ops[m].id != ops[n].id)
    && (forall m, n :: 0 <= m < n < |ops| && ops[m].CreateItem? && ops[n].CreateItem? ==> ops[m].id != ops[n].id)
  }

  lemma EmptyIsSound()
    ensures Sound(EMPTY)
  {
  }

  lemma {:induction false} RunIsSound(ops: seq<Op>, lower: nat -> nat)
    ensures Sound(Run(ops, lower))
  {
    hide Sound, Apply;
    if ops == [] {
      EmptyIsSound();
    } else {
      RunIsSound(ops[..|ops| - 1], lower);
      CallKeepsSound(Run(ops[..|ops| - 1], lower), ops[|ops| - 1], lower);
    }
  }

  lemma IdsFrom(db: Db, op: Op, lower: nat -> nat)
    ensures var db' := Apply(db, op, lower).0;
      && (forall l :: l in db'.lists ==> l in db.lists || (op.CreateList? && op.id == l))
      && (forall i :: i in db'.items ==> i in db.items || (op.CreateItem? && op.id == i))
  {
    hide BookId, ListName, NormalizeTag, NameTaken, GoTrim, Check, ReadingText, TitleOr, Insertable, Accepted;
    hide Normalized;
    hide TagsOf, WithTags, WithoutItem, WithoutList, TagsFailure, Fold;
  }

  lemma {:induction false} IdsComeFromCalls(ops: seq<Op>, lower: nat -> nat)
    ensures forall l :: l in Run(ops, lower).lists ==>
      exists m :: 0 <= m < |ops| && ops[m].CreateList? && ops[m].id == l
    ensures forall i :: i in Run(ops, lower).items ==>
      exists m :: 0 <= m < |ops| && ops[m].CreateItem? && ops[m].id == i
  {
    hide Apply;
    if ops != [] {
      var rest, op := ops[..|ops| - 1], ops[|ops| - 1];
      IdsComeFromCalls(rest, lower);
      IdsFrom(Run(rest, lower), op, lower);
      assert forall m :: 0 <= m < |rest| ==> rest[m] == ops[m];
      forall l | l in Run(ops, lower).lists ensures exists m :: 0 <= m < |ops| && ops[m].CreateList? && ops[m].id == l {
        if l in Run(rest, lower).lists {
          var m :| 0 <= m < |rest| && rest[m].CreateList? && rest[m].id == l;
          assert ops[m].CreateList? && ops[m].id == l;
        } else {
          assert ops[|rest|].CreateList? && ops[|rest|].id == l;
        }
      }
      forall i | i in Run(ops, lower).items ensures exists m :: 0 <= m < |ops| && ops[m].CreateItem? && ops[m].id == i {
        if i in Run(rest, lower).items {
          var m :| 0 <= m < |rest| && rest[m].CreateItem? && rest[m].id == i;
          assert ops[m].CreateItem? && ops[m].id == i;
        } else {
          assert ops[|rest|].CreateItem? && ops[|rest|].id == i;
        }
      }
    }
  }

  lemma FreshStep(ops: seq<Op>, lower: nat -> nat)
    requires FreshIds(ops) && ops != []
    ensures FreshIds(ops[..|ops| - 1]) && Fresh(Run(ops[..|ops| - 1], lower), ops[|ops| - 1])
  {
    hide Run;
    IdsComeFromCalls(ops[..|ops| - 1], lower);
  }

  lemma EmptyRestrict(u: Id)
    ensures Restrict(EMPTY, u) == EMPTY
  {
  }

  lemma RunNoOrphans(ops: seq<Op>, lower: nat -> nat)
    ensures NoOrphans(Run(ops, lower))
  {
    hide Run, NoOrphans;
    RunIsSound(ops, lower);
  }

  /** Whatever other accounts do in between, an account's part of the tables and
      the outcomes of its calls are those of its own calls alone. */
  lemma {:induction false} LibrariesAreSeparate(ops: seq<Op>, u: Id, lower: nat -> nat)
    requires FreshIds(ops)
    ensures Restrict(Run(ops, lower), u) == Run(OwnOps(ops, u), lower)
    ensures OwnOutcomes(ops, u, lower) == OwnOutcomes(OwnOps(ops, u), u, lower)
  {
    hide Restrict, Apply, FreshIds, Fresh, Sound, NoOrphans;
    if ops == [] {
      EmptyRestrict(u);
    } else {
      var rest, op := ops[..|ops| - 1], ops[|ops| - 1];
      FreshStep(ops, lower);
      LibrariesAreSeparate(rest, u, lower);
      RunNoOrphans(rest, lower);
      EveryCallIsLocal(Run(rest, lower), op, u, lower);
      var own := OwnOps(rest, u);
      if op.user == u {
        assert (own + [op])[..|own|] == own;
      } else {
        assert OwnOps(ops, u) == own && OwnOutcomes(ops, u, lower) == OwnOutcomes(rest, u, lower);
      }
    }
  }

  /** In every run a call fails on a clash of keys exactly if two of its own tags
      hold a character 0, are equally long and agree before it. */
  lemma RunConstraintExactly(ops: seq<Op>, op: Op, lower: nat -> nat)
    requires FreshIds(ops + [op]) && LowersAscii(lower)
    ensures var db := Run(ops, lower);
      Apply(db, op, lower).1 == Failed(Constraint) <==> StoresClash(db, op, lower)
  {
    hide Run, Sound, Apply, LowersAscii, Fresh, FreshIds, StoresClash;
    RunIsSound(ops, lower);
    FreshStep(ops + [op], lower);
    assert (ops + [op])[..|ops|] == ops;
    ConstraintExactly(Run(ops, lower), op, lower);
  }

  /** In every run no call with tags free of the character 0 fails on a clash of keys. */
  lemma RunNeverConstraint(ops: seq<Op>, op: Op, lower: nat -> nat)
    requires FreshIds(ops + [op]) && LowersAscii(lower)
    requires op.CreateItem? ==> forall i :: 0 <= i < |op.draft.tags| ==> 0 !in op.draft.tags[i]
    requires op.UpdateItem? ==> forall i :: 0 <= i < |op.tags| ==> 0 !in op.tags[i]
    ensures Apply(Run(ops, lower), op, lower).1 != Failed(Constraint)
  {
    hide Run, Apply, LowersAscii, FreshIds, Check, Accepted, Normalized, GoTrim, ReadingText, HasNulClash, HasTags;
    RunConstraintExactly(ops, op, lower);
    CheckTags(op, lower);
    if op.CreateItem? && Accepted(op.draft.tags, lower) {
      NoClashWithoutNul(op.draft.tags, lower);
    } else if op.UpdateItem? && Accepted(op.tags, lower) {
      NoClashWithoutNul(op.tags, lower);
    }
  }

  // ---------- queries ----------

  datatype Query =
    | RecentBooks(user: Id, limit: int)
    | ListsOf(user: Id)
    | ListsForBook(user: Id, book: Text)
    | ListById(user: Id, list: Text)
    | BooksInList(user: Id, list: Text)
    | TagsOfUser(user: Id)
    | TagsOfBook(user: Id, book: Text)
    | BooksWithTag(user: Id, tag: Text)
    | ItemsOf(user: Id, book: Text, limit: int)
    | ItemById(user: Id, item: Text)

  /** A row of a result. A group of tags shows one of its spellings and the number of its books. */
  datatype Row =
    | BookRow(book: Text, at: int)
    | ListRow(id: Id, list: BookList, count: nat, contains: bool)
    | TagGroup(key: Text, spellings: set<Text>, books: set<Text>)
    | BookTag(key: Text, tag: Text)
    | ItemRow(id: Id, item: Item, tags: map<Text, Text>)

  datatype Selection = Rows(rows: set<Row>) | Refused(why: Failure)

  function BooksIn(db: Db, list: Id): set<(Id, Text)> { set k | k in db.listItems && k.0 == list }

  function RowOfList(db: Db, list: Id, book: Option<Text>): Row
    requires list in db.lists
  {
    ListRow(list, db.lists[list], |BooksIn(db, list)|, book.Some? && (list, book.value) in db.listItems)
  }

  function ListRows(db: Db, user: Id, book: Option<Text>): set<Row> {
    set l | l in db.lists && db.lists[l].user == user :: RowOfList(db, l, book)
  }

  function BookRows(db: Db, user: Id, list: Id): set<Row> {
    set k | k in db.listItems && OwnsList(db, user, k.0) && k.0 == list :: BookRow(k.1, db.listItems[k])
  }

  function ActivityRows(db: Db, user: Id): set<Row> {
    set k | k in db.activity && k.0 == user :: BookRow(k.1, db.activity[k])
  }

  function RowOfTag(db: Db, user: Id, key: Text): Row {
    TagGroup(key, set k | k in db.tags && k.0 == user && k.2 == key :: db.tags[k].tag,
             set k | k in db.tags && k.0 == user && k.2 == key :: k.1)
  }

  function TagRows(db: Db, user: Id): set<Row> {
    set k | k in db.tags && k.0 == user :: RowOfTag(db, user, k.2)
  }

  function TagRowsOfBook(db: Db, user: Id, book: Text): set<Row> {
    set k | k in db.tags && k.0 == user && k.1 == book :: BookTag(k.2, db.tags[k].tag)
  }

  function TaggedRows(db: Db, user: Id, key: Text): set<Row> {
    set k | k in db.tags && k.0 == user && k.2 == key :: BookRow(k.1, db.tags[k].createdAt)
  }

  /** The tags joined to an item: those of an item that the account owns. */
  function JoinedTags(db: Db, user: Id, item: Id): map<Text, Text> {
    map k | k in db.itemTags && OwnsItem(db, user, k.0) && k.0 == item :: k.1 := db.itemTags[k].tag
  }

  function ItemRows(db: Db, user: Id, book: Option<Text>): set<Row> {
    set i | i in db.items && db.items[i].user == user && (book.Some? ==> db.items[i].book == book.value)
      :: ItemRow(i, db.items[i], JoinedTags(db, user, i))
  }

  function Select(db: Db, q: Query): Selection {
    match q
    case RecentBooks(user, _) => Rows(ActivityRows(db, user))
    case ListsOf(user) => Rows(ListRows(db, user, None))
    case ListsForBook(user, rawBook) =>
      var book := BookId(rawBook);
      if book.None? then Refused(BadBook) else Rows(ListRows(db, user, book))
    case ListById(user, rawList) =>
      var list := GoTrim(rawList);
      if OwnsList(db, user, list) then Rows({RowOfList(db, list, None)}) else Refused(ListNotFound)
    case BooksInList(user, rawList) =>
      var list := GoTrim(rawList);
      if OwnsList(db, user, list) then Rows(BookRows(db, user, list)) else Refused(ListNotFound)
    case TagsOfUser(user) => Rows(TagRows(db, user))
    case TagsOfBook(user, rawBook) =>
      var book := BookId(rawBook);
      if book.None? then Refused(BadBook) else Rows(TagRowsOfBook(db, user, book.value))
    case BooksWithTag(user, rawTag) =>
      var tag := NormalizeTag(rawTag);
      if tag.Err? then Refused(BadTag(tag.error)) else Rows(TaggedRows(db, user, Fold(tag.value)))
    case ItemsOf(user, rawBook, _) =>
      var book := BookId(rawBook);
      if GoTrim(rawBook) == [] then Rows(ItemRows(db, user, None))
      else if book.None? then Refused(BadBook)
      else Rows(ItemRows(db, user, book))
    case ItemById(user, rawItem) =>
      var item := GoTrim(rawItem);
      if OwnsItem(db, user, item) then Rows({ItemRow(item, db.items[item], JoinedTags(db, user, item))})
      else Refused(ItemNotFound)
  }

  lemma ListRowsLocal(db: Db, u: Id, list: Id, book: Option<Text>)
    requires OwnsList(db, u, list)
    ensures list in Restrict(db, u).lists && RowOfList(Restrict(db, u), list, book) == RowOfList(db, list, book)
  {
    assert BooksIn(Restrict(db, u), list) == BooksIn(db, list);
  }

  lemma AllListRowsLocal(db: Db, u: Id, book: Option<Text>)
    ensures ListRows(Restrict(db, u), u, book) == ListRows(db, u, book)
  {
    hide RowOfList;
    var small := Restrict(db, u);
    assert forall l :: l in small.lists <==> OwnsList(db, u, l);
    assert forall l :: l in small.lists ==> small.lists[l].user == u;
    forall l | l in small.lists ensures RowOfList(small, l, book) == RowOfList(db, l, book) {
      ListRowsLocal(db, u, l, book);
    }
    forall r | r in ListRows(db, u, book) ensures r in ListRows(small, u, book) {
      var l :| l in db.lists && db.lists[l].user == u && r == RowOfList(db, l, book);
      assert l in small.lists;
    }
  }

  lemma BookRowsLocal(db: Db, u: Id, list: Id)
    ensures BookRows(Restrict(db, u), u, list) == BookRows(db, u, list)
    ensures ActivityRows(Restrict(db, u), u) == ActivityRows(db, u)
  {
    hide OwnTags, OwnItems, OwnItemTags;
    var small := Restrict(db, u);
    forall r | r in BookRows(db, u, list) ensures r in BookRows(small, u, list) {
      var k :| k in db.listItems && OwnsList(db, u, k.0) && k.0 == list && r == BookRow(k.1, db.listItems[k]);
      assert k in small.listItems;
    }
    forall r | r in ActivityRows(db, u) ensures r in ActivityRows(small, u) {
      var k :| k in db.activity && k.0 == u && r == BookRow(k.1, db.activity[k]);
      assert k in small.activity;
    }
  }

  lemma SameGroup(db: Db, small: Db, u: Id, key: Text)
    requires forall k :: k in small.tags <==> k in db.tags && k.0 == u
    requires forall k :: k in small.tags ==> small.tags[k] == db.tags[k]
    ensures RowOfTag(small, u, key) == RowOfTag(db, u, key)
  {
    var left, right := RowOfTag(small, u, key), RowOfTag(db, u, key);
    assert left.spellings == right.spellings;
    assert left.books == right.books;
  }

  lemma TagRowsSame(db: Db, small: Db, u: Id)
    requires forall k :: k in small.tags <==> k in db.tags && k.0 == u
    requires forall key :: RowOfTag(small, u, key) == RowOfTag(db, u, key)
    ensures TagRows(small, u) == TagRows(db, u)
  {
    hide RowOfTag;
    forall r | r in TagRows(db, u) ensures r in TagRows(small, u) {
      var k :| k in db.tags && k.0 == u && r == RowOfTag(db, u, k.2);
      assert k in small.tags && r == RowOfTag(small, u, k.2);
    }
    forall r | r in TagRows(small, u) ensures r in TagRows(db, u) {
      var k :| k in small.tags && k.0 == u && r == RowOfTag(small, u, k.2);
      assert k in db.tags && r == RowOfTag(db, u, k.2);
    }
  }

  lemma TagRowsLocal(db: Db, u: Id)
    ensures forall key :: RowOfTag(Restrict(db, u), u, key) == RowOfTag(db, u, key)
    ensures TagRows(Restrict(db, u), u) == TagRows(db, u)
  {
    hide OwnActivity, OwnLists, OwnListItems, OwnItems, OwnItemTags;
    var small := Restrict(db, u);
    assert forall k :: k in small.tags <==> k in db.tags && k.0 == u;
    forall key ensures RowOfTag(small, u, key) == RowOfTag(db, u, key) {
      SameGroup(db, small, u, key);
    }
    TagRowsSame(db, small, u);
  }

  lemma BookTagsLocal(db: Db, u: Id, book: Text, key: Text)
    ensures TagRowsOfBook(Restrict(db, u), u, book) == TagRowsOfBook(db, u, book)
    ensures TaggedRows(Restrict(db, u), u, key) == TaggedRows(db, u, key)
  {
    hide OwnActivity, OwnLists, OwnListItems, OwnItems, OwnItemTags;
    var small := Restrict(db, u);
    assert forall k :: k in small.tags <==> k in db.tags && k.0 == u;
    forall r | r in TagRowsOfBook(db, u, book) ensures r in TagRowsOfBook(small, u, book) {
      var k :| k in db.tags && k.0 == u && k.1 == book && r == BookTag(k.2, db.tags[k].tag);
      assert k in small.tags;
    }
    forall r | r in TaggedRows(db, u, key) ensures r in TaggedRows(small, u, key) {
      var k :| k in db.tags && k.0 == u && k.2 == key && r == BookRow(k.1, db.tags[k].createdAt);
      assert k in small.tags;
    }
  }

  lemma JoinedTagsLocal(db: Db, u: Id, item: Id)
    ensures JoinedTags(Restrict(db, u), u, item) == JoinedTags(db, u, item)
  {
    hide OwnActivity, OwnLists, OwnListItems, OwnTags;
    var small := Restrict(db, u);
    assert forall k :: k in small.itemTags <==> k in db.itemTags && k.0 in db.items && db.items[k.0].user == u;
    assert forall i :: i in small.items <==> i in db.items && db.items[i].user == u;
  }

  lemma ItemRowsLocal(db: Db, u: Id, book: Option<Text>)
    ensures ItemRows(Restrict(db, u), u, book) == ItemRows(db, u, book)
  {
    hide OwnActivity, OwnLists, OwnListItems, OwnTags, OwnItemTags, JoinedTags;
    var small := Restrict(db, u);
    assert forall i :: i in small.items <==> i in db.items && db.items[i].user == u;
    forall i ensures JoinedTags(small, u, i) == JoinedTags(db, u, i) { JoinedTagsLocal(db, u, i); }
    forall r | r in ItemRows(db, u, book) ensures r in ItemRows(small, u, book) {
      var i :| i in db.items && db.items[i].user == u && (book.Some? ==> db.items[i].book == book.value)
        && r == ItemRow(i, db.items[i], JoinedTags(db, u, i));
      assert i in small.items;
    }
  }

  lemma ListByIdLocal(db: Db, q: Query)
    requires q.ListById?
    ensures Select(Restrict(db, q.user), q) == Select(db, q)
  {
    hide GoTrim, RowOfList, OwnActivity, OwnListItems, OwnTags, OwnItems, OwnItemTags;
    var list := GoTrim(q.list);
    OwnsListLocal(db, q.user, list);
    if OwnsList(db, q.user, list) { ListRowsLocal(db, q.user, list, None); }
  }

  lemma ItemByIdLocal(db: Db, q: Query)
    requires q.ItemById?
    ensures Select(Restrict(db, q.user), q) == Select(db, q)
  {
    hide GoTrim, OwnActivity, OwnLists, OwnListItems, OwnTags, OwnItemTags, JoinedTags;
    OwnsItemLocal(db, q.user, GoTrim(q.item));
    JoinedTagsLocal(db, q.user, GoTrim(q.item));
  }

  /** A query sees the caller's part only. */
  lemma EveryQueryIsLocal(db: Db, q: Query)
    ensures Select(Restrict(db, q.user), q) == Select(db, q)
  {
    hide GoTrim, BookId, NormalizeTag, Fold, ListRows, BookRows, ActivityRows, TagRows, TagRowsOfBook;
    hide TaggedRows, ItemRows, RowOfList, Restrict, JoinedTags;
    hide OwnsList, OwnsItem;
    var u := q.user;
    match q
    case RecentBooks(_, _) => BookRowsLocal(db, u, []);
    case ListsOf(_) => AllListRowsLocal(db, u, None);
    case ListsForBook(_, book) => AllListRowsLocal(db, u, BookId(book));
    case ListById(_, list) => ListByIdLocal(db, q);
    case BooksInList(_, list) => BookRowsLocal(db, u, GoTrim(list)); OwnsListLocal(db, u, GoTrim(list));
    case TagsOfUser(_) => TagRowsLocal(db, u);
    case TagsOfBook(_, book) =>
      if BookId(book).Some? { BookTagsLocal(db, u, BookId(book).value, []); }
    case BooksWithTag(_, tag) =>
      if NormalizeTag(tag).Ok? { BookTagsLocal(db, u, [], Fold(NormalizeTag(tag).value)); }
    case ItemsOf(_, book, _) => ItemRowsLocal(db, u, None); ItemRowsLocal(db, u, BookId(book));
    case ItemById(_, item) => ItemByIdLocal(db, q);
  }

  // ---------- the order of a result ----------

  /** Must `r` come before `s`? Rows that the order does not separate come in any order. */
  predicate Before(q: Query, r: Row, s: Row) {
    match (r, s)
    case (BookRow(_, at), BookRow(_, at')) => at > at'
    case (ListRow(_, l, _, _), ListRow(_, l', _, _)) =>
      var byName := Less(Fold(l.name), Fold(l'.name));
      if q.ListsForBook? then byName else l.updatedAt > l'.updatedAt || (l.updatedAt == l'.updatedAt && byName)
    case (TagGroup(key, _, _), TagGroup(key', _, _)) => Less(key, key')
    case (BookTag(key, _), BookTag(key', _)) => Less(key, key')
    case (ItemRow(_, i, _), ItemRow(_, i', _)) =>
      i.updatedAt > i'.updatedAt || (i.updatedAt == i'.updatedAt && i.createdAt > i'.createdAt)
    case _ => false
  }

  function Clamp(limit: int, default: nat, maximum: nat): nat {
    if limit < 1 then default else if limit > maximum then maximum else limit
  }

  function Limit(q: Query): Option<nat> {
    match q
    case RecentBooks(_, limit) => Some(Clamp(limit, 12, 100))
    case ItemsOf(_, _, limit) => Some(Clamp(limit, 200, 500))
    case _ => None
  }

  /** A list that the query may return. */
  ghost predicate Answers(db: Db, q: Query, a: seq<Row>) {
    var s := Select(db, q);
    && s.Rows?
    && (forall r :: r in a ==> r in s.rows)
    && (forall i, j :: 0 <= i < j < |a| ==> a[i] != a[j] && !Before(q, a[j], a[i]))
    && |a| == (if Limit(q).Some? && Limit(q).value < |s.rows| then Limit(q).value else |s.rows|)
    && (forall r, t :: r in s.rows && r !in a && t in a ==> !Before(q, r, t))
  }

  /** In every run, whatever other accounts do, a query may return the same
      lists as if only its own account had used the store. */
  lemma QueriesAreSeparate(ops: seq<Op>, q: Query, lower: nat -> nat, a: seq<Row>)
    requires FreshIds(ops)
    ensures Answers(Run(ops, lower), q, a) <==> Answers(Run(OwnOps(ops, q.user), lower), q, a)
    ensures Select(Run(ops, lower), q) == Select(Run(OwnOps(ops, q.user), lower), q)
  {
    hide Run, OwnOps, FreshIds, Select, Before, Restrict, OwnOutcomes;
    LibrariesAreSeparate(ops, q.user, lower);
    EveryQueryIsLocal(Run(ops, lower), q);
  }

  // ---------- the store ----------

  class LibraryStore {
    var activity: map<(Id, Text), int>
    var lists: map<Id, BookList>
    var listItems: map<(Id, Text), int>
    var tags: map<(Id, Text, Text), TagRow>
    var items: map<Id, Item>
    var itemTags: TagTable
    const lower: nat -> nat

    ghost function Contents(): Db
      reads this
    {
      Db(activity, lists, listItems, tags, items, itemTags)
    }

    constructor (lower: nat -> nat)
      ensures Contents() == EMPTY && this.lower == lower
    {
      activity, lists, listItems, tags, items, itemTags := map[], map[], map[], map[], map[], map[];
      this.lower := lower;
    }

    method RecordBookRead(user: Id, rawBook: Text, now: int) returns (r: Outcome)
      modifies this`activity
      ensures (Contents(), r) == Apply(old(Contents()), RecordRead(user, rawBook, now), lower)
    {
      hide BookId;
      var book := BookId(rawBook);
      if book.None? { return Failed(BadBook); }
      activity := activity[(user, book.value) := now];
      return Done;
    }

    method CreateBookList(user: Id, rawName: Text, id: Id, now: int) returns (r: Outcome)
      modifies this`lists
      ensures (Contents(), r) == Apply(old(Contents()), CreateList(user, rawName, id, now), lower)
    {
      hide ListName, Fold;
      var name := ListName(rawName);
      if name.None? { return Failed(BadListName); }
      var duplicates := set l | l in lists && lists[l].user == user && Fold(lists[l].name) == Fold(name.value);
      if duplicates != {} {
        var l :| l in duplicates;
        assert NameTaken(lists, user, name.value);
        return Failed(ListNameExists);
      }
      assert forall l :: l in lists ==> l !in duplicates;
      if id in lists { return Failed(ListNameExists); }
      var list := BookList(user, name.value, now, now);
      lists := lists[id := list];
      return ListMade(id, list);
    }

    method DeleteBookList(user: Id, rawList: Text) returns (r: Outcome)
      modifies this`lists, this`listItems
      ensures (Contents(), r) == Apply(old(Contents()), DeleteList(user, rawList), lower)
    {
      hide GoTrim, WithoutList;
      var list := GoTrim(rawList);
      if list !in lists || lists[list].user != user { return Failed(ListNotFound); }
      lists := lists - {list};
      listItems := WithoutList(listItems, list);
      return Done;
    }

    method AddBookToList(user: Id, rawList: Text, rawBook: Text, now: int) returns (r: Outcome)
      modifies this`lists, this`listItems
      ensures (Contents(), r) == Apply(old(Contents()), AddBook(user, rawList, rawBook, now), lower)
    {
      hide GoTrim, BookId;
      var book, list := BookId(rawBook), GoTrim(rawList);
      if book.None? { return Failed(BadBook); }
      if list !in lists || lists[list].user != user { return Failed(ListNotFound); }
      if (list, book.value) !in listItems { listItems := listItems[(list, book.value) := now]; }
      lists := lists[list := lists[list].(updatedAt := now)];
      return Done;
    }

    method RemoveBookFromList(user: Id, rawList: Text, rawBook: Text, now: int) returns (r: Outcome)
      modifies this`lists, this`listItems
      ensures (Contents(), r) == Apply(old(Contents()), RemoveBook(user, rawList, rawBook, now), lower)
    {
      hide GoTrim, BookId;
      var book, list := BookId(rawBook), GoTrim(rawList);
      if book.None? { return Failed(BadBook); }
      if list !in lists || lists[list].user != user { return Failed(ListNotFound); }
      listItems := listItems - {(list, book.value)};
      lists := lists[list := lists[list].(updatedAt := now)];
      return Done;
    }

    method AddBookTag(user: Id, rawBook: Text, rawTag: Text, now: int) returns (r: Outcome)
      modifies this`tags
      ensures (Contents(), r) == Apply(old(Contents()), AddTag(user, rawBook, rawTag, now), lower)
    {
      hide BookId, NormalizeTag, Fold;
      var book, tag := BookId(rawBook), NormalizeTag(rawTag);
      if book.None? { return Failed(BadBook); }
      if tag.Err? { return Failed(BadTag(tag.error)); }
      var key := (user, book.value, Fold(tag.value));
      if key !in tags { tags := tags[key := TagRow(tag.value, now)]; }
      return Done;
    }

    method RemoveBookTag(user: Id, rawBook: Text, rawTag: Text) returns (r: Outcome)
      modifies this`tags
      ensures (Contents(), r) == Apply(old(Contents()), RemoveTag(user, rawBook, rawTag), lower)
    {
      hide BookId, NormalizeTag, Fold;
      var book, tag := BookId(rawBook), NormalizeTag(rawTag);
      if book.None? { return Failed(BadBook); }
      if tag.Err? { return Failed(BadTag(tag.error)); }
      tags := tags - {(user, book.value, Fold(tag.value))};
      return Done;
    }

    /** validateReadingItem */
    static method Validate(d: Draft, user: Id, now: int, lower: nat -> nat) returns (c: Checked)
      ensures c == Check(d, user, now, lower)
    {
      hide BookId, ReadingText, TitleOr, Accepted, Normalized, GoSquash;
      var book := BookId(d.book);
      if book.None? { return Bad(BadBook); }
      if d.kind.None? { return Bad(BadKind); }
      var locator := ReadingText(d.locator, 4000);
      if locator.None? || locator.value == [] { return Bad(BadLocator); }
      var caption := ReadingText(d.locatorLabel, 200);
      if caption.None? { return Bad(BadLabel); }
      var title := ReadingText(d.title, 200);
      if title.None? { return Bad(BadTitle); }
      var body := ReadingText(d.body, 20000);
      if body.None? { return Bad(BadBody); }
      var excerpt := ReadingText(d.excerpt, 2000);
      if excerpt.None? { return Bad(BadExcerpt); }
      var tags := NormalizeReadingTags(d.tags, lower);
      if tags.Err? { return Bad(BadTag(tags.error)); }
      return Good(Item(user, book.value, d.kind.value, locator.value, caption.value, TitleOr(title.value, d.kind.value),
                       body.value, excerpt.value, now, now), tags.value);
    }

    method CreateReadingItem(user: Id, draft: Draft, id: Id, now: int) returns (r: Outcome)
      modifies this`items, this`itemTags
      ensures (Contents(), r) == Apply(old(Contents()), CreateItem(user, draft, id, now), lower)
    {
      hide Check, WithTags, Insertable, TagsOf;
      var c := Validate(draft, user, now, lower);
      if c.Bad? { return Failed(c.why); }
      if id in items { return Failed(Constraint); }
      var inserted, newTags := InsertReadingTags(itemTags, id, c.tags, now);
      if !inserted { return Failed(Constraint); }
      items := items[id := c.item];
      itemTags := newTags;
      return ItemSaved(id, c.item, TagsOf(itemTags, id));
    }

    method UpdateReadingItem(user: Id, rawItem: Text, rawTitle: Text, rawBody: Text, raws: seq<Text>, now: int)
      returns (r: Outcome)
      modifies this`items, this`itemTags
      ensures (Contents(), r) == Apply(old(Contents()), UpdateItem(user, rawItem, rawTitle, rawBody, raws, now), lower)
    {
      hide GoTrim, ReadingText, TitleOr, Accepted, Normalized, GoSquash, WithTags, Insertable, TagsOf, WithoutItem;
      var title := ReadingText(rawTitle, 200);
      if title.None? { return Failed(BadTitle); }
      var body := ReadingText(rawBody, 20000);
      if body.None? { return Failed(BadBody); }
      var newTags := NormalizeReadingTags(raws, lower);
      if newTags.Err? { return Failed(BadTag(newTags.error)); }
      var id := GoTrim(rawItem);
      if id !in items || items[id].user != user { return Failed(ItemNotFound); }
      var inserted, table := InsertReadingTags(WithoutItem(itemTags, id), id, newTags.value, now);
      if !inserted { return Failed(Constraint); }
      items := items[id := Edited(items[id], title.value, body.value, now)];
      itemTags := table;
      return ItemSaved(id, items[id], TagsOf(itemTags, id));
    }

    method DeleteReadingItem(user: Id, rawItem: Text) returns (r: Outcome)
      modifies this`items, this`itemTags
      ensures (Contents(), r) == Apply(old(Contents()), DeleteItem(user, rawItem), lower)
    {
      hide GoTrim, WithoutItem;
      var id := GoTrim(rawItem);
      if id !in items || items[id].user != user { return Failed(ItemNotFound); }
      items := items - {id};
      itemTags := WithoutItem(itemTags, id);
      return Done;
    }
  }
}
