/** The enclosures table and the two statements that write it (internal/storage/enclosure.go). */
module Enclosures {

  /** An enclosure of a parsed feed entry. */
  datatype Enclosure = Enclosure(url: string, size: int, mimeType: string, mediaProgression: int)

  datatype EnclosureRow = EnclosureRow(
    userID: int, entryID: int, url: string, size: int, mimeType: string, mediaProgression: int)

  /** The rows by primary key, and the next value of the key's sequence. */
  datatype EnclosureTable = EnclosureTable(rows: map<int, EnclosureRow>, nextID: int)

  // ----- strings.TrimSpace -----

  predicate IsSpace(c: char) {
    var n := c as int;
    || 0x09 <= n <= 0x0D || n == 0x20 || n == 0x85 || n == 0xA0 || n == 0x1680
    || 0x2000 <= n <= 0x200A || n == 0x2028 || n == 0x2029 || n == 0x202F || n == 0x205F || n == 0x3000
  }

  function TrimLeft(s: string): string {
    if s != [] && IsSpace(s[0]) then TrimLeft(s[1..]) else s
  }

  function TrimRight(s: string): string {
    if s != [] && IsSpace(s[|s| - 1]) then TrimRight(s[..|s| - 1]) else s
  }

  function TrimSpace(s: string): string { TrimRight(TrimLeft(s)) }

  // ----- Statements -----

  /** A row conflicts on the unique index (user_id, entry_id, sha256(url)). */
  predicate HasUrl(t: EnclosureTable, userID: int, entryID: int, url: string) {
    exists id :: id in t.rows && IsOf(t.rows[id], userID, entryID) && t.rows[id].url == url
  }

  predicate IsOf(row: EnclosureRow, userID: int, entryID: int) {
    row.userID == userID && row.entryID == entryID
  }

  function RowFor(userID: int, entryID: int, e: Enclosure): EnclosureRow {
    EnclosureRow(userID, entryID, TrimSpace(e.url), e.size, e.mimeType, e.mediaProgression)
  }

  /** Inserting draws a sequence value even when the row conflicts and is not stored. */
  function Create(t: EnclosureTable, userID: int, entryID: int, e: Enclosure): EnclosureTable {
    if TrimSpace(e.url) == "" then t
    else if HasUrl(t, userID, entryID, TrimSpace(e.url)) then t.(nextID := t.nextID + 1)
    else EnclosureTable(t.rows[t.nextID := RowFor(userID, entryID, e)], t.nextID + 1)
  }

  function CreateAll(t: EnclosureTable, userID: int, entryID: int, list: seq<Enclosure>): EnclosureTable {
    if list == [] then t
    else Create(CreateAll(t, userID, entryID, list[..|list| - 1]), userID, entryID, list[|list| - 1])
  }

  function TrimmedUrls(list: seq<Enclosure>): set<string> {
    set e | e in list :: TrimSpace(e.url)
  }

  /** DELETE ... WHERE user_id AND entry_id AND url <> ALL(keep) */
  function DeleteUnlisted(t: EnclosureTable, userID: int, entryID: int, keep: set<string>): EnclosureTable {
    t.(rows := map id | id in t.rows && !(IsOf(t.rows[id], userID, entryID) && t.rows[id].url !in keep) :: t.rows[id])
  }

  function Update(t: EnclosureTable, userID: int, entryID: int, list: seq<Enclosure>): EnclosureTable {
    if list == [] then DeleteUnlisted(t, userID, entryID, {})
    else DeleteUnlisted(CreateAll(t, userID, entryID, list), userID, entryID, TrimmedUrls(list))
  }

  /** The cascade of deleting the given entries. */
  function DeleteOfEntries(t: EnclosureTable, entryIDs: set<int>): EnclosureTable {
    t.(rows := map id | id in t.rows && t.rows[id].entryID !in entryIDs :: t.rows[id])
  }

  // ----- What the statements promise -----

  /** The primary key is fresh and the unique index holds. */
  ghost predicate ValidTable(t: EnclosureTable) {
    && (forall id :: id in t.rows ==> id < t.nextID)
    && (forall i, j :: i in t.rows && j in t.rows && SameKey(t.rows[i], t.rows[j]) ==> i == j)
  }

  ghost predicate SameKey(a: EnclosureRow, b: EnclosureRow) {
    a.userID == b.userID && a.entryID == b.entryID && a.url == b.url
  }

  function Urls(t: EnclosureTable, userID: int, entryID: int): set<string> {
    set id | id in t.rows && IsOf(t.rows[id], userID, entryID) :: t.rows[id].url
  }

  /** The URLs an update asks for: trimmed, blanks skipped. */
  function Listed(list: seq<Enclosure>): set<string> { TrimmedUrls(list) - {""} }

  /** The first listed enclosure with this URL decides the stored attributes. */
  function FirstWith(list: seq<Enclosure>, url: string): Enclosure
    requires url in TrimmedUrls(list)
  {
    if TrimSpace(list[0].url) == url then list[0]
    else assert list == [list[0]] + list[1..]; FirstWith(list[1..], url)
  }

  /** Trimming removes exactly the white space at both ends. */
  lemma {:induction false} TrimSpaceRemovesOuterSpace(s: string) returns (left: string, right: string)
    ensures s == left + TrimSpace(s) + right
    ensures forall i :: 0 <= i < |left| ==> IsSpace(left[i])
    ensures forall i :: 0 <= i < |right| ==> IsSpace(right[i])
    ensures TrimSpace(s) != "" ==> !IsSpace(TrimSpace(s)[0]) && !IsSpace(TrimSpace(s)[|TrimSpace(s)| - 1])
  {
    left := TrimLeftRemovesSpace(s);
    right := TrimRightRemovesSpace(TrimLeft(s));
    assert TrimSpace(s) <= TrimLeft(s);
  }

  lemma {:induction false} TrimLeftRemovesSpace(s: string) returns (left: string)
    ensures s == left + TrimLeft(s)
    ensures forall i :: 0 <= i < |left| ==> IsSpace(left[i])
    ensures TrimLeft(s) != "" ==> !IsSpace(TrimLeft(s)[0])
  {
    if s != [] && IsSpace(s[0]) {
      var rest := TrimLeftRemovesSpace(s[1..]);
      left := [s[0]] + rest;
    } else {
      left := "";
    }
  }

  lemma {:induction false} TrimRightRemovesSpace(s: string) returns (right: string)
    ensures s == TrimRight(s) + right
    ensures forall i :: 0 <= i < |right| ==> IsSpace(right[i])
    ensures TrimRight(s) != "" ==> !IsSpace(TrimRight(s)[|TrimRight(s)| - 1])
  {
    if s != [] && IsSpace(s[|s| - 1]) {
      var rest := TrimRightRemovesSpace(s[..|s| - 1]);
      right := rest + [s[|s| - 1]];
    } else {
      right := "";
    }
  }

  lemma {:induction false} FirstWithExtends(list: seq<Enclosure>, e: Enclosure, url: string)
    requires url in TrimmedUrls(list + [e])
    ensures url in TrimmedUrls(list) ==> FirstWith(list + [e], url) == FirstWith(list, url)
    ensures url !in TrimmedUrls(list) ==> FirstWith(list + [e], url) == e
  {
    if list != [] && TrimSpace(list[0].url) != url {
      assert (list + [e])[1..] == list[1..] + [e];
      assert list + [e] == [list[0]] + (list[1..] + [e]);
      assert list == [list[0]] + list[1..];
      FirstWithExtends(list[1..], e, url);
    } else if list == [] {
      assert list + [e] == [e];
    }
  }

  /** t' holds every row of t, and its other rows were made for this entry: each has a URL that
      t lacks and the attributes of the first enclosure that lists it. */
  ghost predicate Extends(t: EnclosureTable, t': EnclosureTable, userID: int, entryID: int, list: seq<Enclosure>) {
    && t.nextID <= t'.nextID
    && (forall id :: id in t.rows ==> id in t'.rows && t'.rows[id] == t.rows[id])
    && (forall id :: id in t'.rows && id !in t.rows ==> id >= t.nextID && MadeFor(t, t'.rows[id], userID, entryID, list))
  }

  ghost predicate MadeFor(t: EnclosureTable, row: EnclosureRow, userID: int, entryID: int, list: seq<Enclosure>) {
    && row.url in Listed(list)
    && row == RowFor(userID, entryID, FirstWith(list, row.url))
    && !HasUrl(t, userID, entryID, row.url)
  }

  lemma CreateResult(t: EnclosureTable, userID: int, entryID: int, e: Enclosure)
    requires ValidTable(t)
    ensures ValidTable(Create(t, userID, entryID, e))
    ensures Extends(t, Create(t, userID, entryID, e), userID, entryID, [e])
    ensures forall url :: HasUrl(Create(t, userID, entryID, e), userID, entryID, url) <==>
                          HasUrl(t, userID, entryID, url) || url in Listed([e])
  {
    var t' := Create(t, userID, entryID, e);
    assert TrimmedUrls([e]) == {TrimSpace(e.url)};
    if TrimSpace(e.url) != "" && !HasUrl(t, userID, entryID, TrimSpace(e.url)) {
      var id := t.nextID;
      assert id in t'.rows && t'.rows[id] == RowFor(userID, entryID, FirstWith([e], TrimSpace(e.url)));
      assert HasUrl(t', userID, entryID, TrimSpace(e.url));
    }
    assert forall url :: url in Listed([e]) <==> url == TrimSpace(e.url) && url != "";
    forall url | HasUrl(t, userID, entryID, url) ensures HasUrl(t', userID, entryID, url) {
      var id :| id in t.rows && IsOf(t.rows[id], userID, entryID) && t.rows[id].url == url;
      assert id in t'.rows && t'.rows[id] == t.rows[id];
    }
    forall url | HasUrl(t', userID, entryID, url) && !HasUrl(t, userID, entryID, url)
      ensures url == TrimSpace(e.url) && url != ""
    {
      var id :| id in t'.rows && IsOf(t'.rows[id], userID, entryID) && t'.rows[id].url == url;
      assert id !in t.rows;
    }
  }

  lemma {:induction false} CreateAllKeepsValid(t: EnclosureTable, userID: int, entryID: int, list: seq<Enclosure>)
    requires ValidTable(t)
    ensures ValidTable(CreateAll(t, userID, entryID, list))
    ensures forall url :: HasUrl(CreateAll(t, userID, entryID, list), userID, entryID, url) <==>
                          HasUrl(t, userID, entryID, url) || url in Listed(list)
  {
    if list != [] {
      var init, e := list[..|list| - 1], list[|list| - 1];
      assert list == init + [e];
      CreateAllKeepsValid(t, userID, entryID, init);
      CreateResult(CreateAll(t, userID, entryID, init), userID, entryID, e);
      assert TrimmedUrls(list) == TrimmedUrls(init) + TrimmedUrls([e]);
    }
  }

  /** What inserting a list of enclosures adds: one fresh row for every URL that was missing,
      with the attributes of the first enclosure that has it. */
  lemma {:induction false} CreateAllExtends(t: EnclosureTable, userID: int, entryID: int, list: seq<Enclosure>)
    requires ValidTable(t)
    ensures Extends(t, CreateAll(t, userID, entryID, list), userID, entryID, list)
  {
    if list != [] {
      var init, e := list[..|list| - 1], list[|list| - 1];
      assert list == init + [e];
      CreateAllExtends(t, userID, entryID, init);
      CreateAllKeepsValid(t, userID, entryID, init);
      var t1, t' := CreateAll(t, userID, entryID, init), CreateAll(t, userID, entryID, list);
      CreateResult(t1, userID, entryID, e);
      assert TrimmedUrls(list) == TrimmedUrls(init) + TrimmedUrls([e]);
      forall id | id in t'.rows && id !in t.rows
        ensures id >= t.nextID && MadeFor(t, t'.rows[id], userID, entryID, list)
      {
        var row := t'.rows[id];
        FirstWithExtends(init, e, row.url);
        if id in t1.rows {
          assert MadeFor(t, row, userID, entryID, init);
        } else {
          assert MadeFor(t1, row, userID, entryID, [e]);
        }
      }
    }
  }

  /** Rows of other entries are untouched; rows of this entry survive exactly when their URL is
      listed, and then keep their id, attributes and media progression. */
  ghost predicate KeepsListed(t: EnclosureTable, t': EnclosureTable, userID: int, entryID: int, keep: set<string>) {
    && (forall id :: id in t.rows ==>
          (id in t'.rows <==> (IsOf(t.rows[id], userID, entryID) ==> t.rows[id].url in keep)))
    && (forall id :: id in t.rows && id in t'.rows ==> t'.rows[id] == t.rows[id])
  }

  /** The whole effect of updateEnclosures on the table, for any list: old rows survive when
      listed, and every missing URL gets one fresh row. */
  lemma UpdateResult(t: EnclosureTable, userID: int, entryID: int, list: seq<Enclosure>)
    requires ValidTable(t)
    ensures ValidTable(Update(t, userID, entryID, list))
    ensures KeepsListed(t, Update(t, userID, entryID, list), userID, entryID, TrimmedUrls(list))
    ensures forall id :: id in Update(t, userID, entryID, list).rows && id !in t.rows ==>
              && id >= t.nextID
              && MadeFor(t, Update(t, userID, entryID, list).rows[id], userID, entryID, list)
  {
    CreateAllKeepsValid(t, userID, entryID, list);
    CreateAllExtends(t, userID, entryID, list);
  }

  lemma UpdatedUrls(t: EnclosureTable, userID: int, entryID: int, list: seq<Enclosure>, url: string)
    requires ValidTable(t)
    ensures HasUrl(Update(t, userID, entryID, list), userID, entryID, url) <==>
            || url in Listed(list)
            || (url == "" && HasUrl(t, userID, entryID, "") && "" in TrimmedUrls(list))
  {
    CreateAllKeepsValid(t, userID, entryID, list);
    var t1, t' := CreateAll(t, userID, entryID, list), Update(t, userID, entryID, list);
    assert list == [] ==> TrimmedUrls(list) == {};
    if HasUrl(t1, userID, entryID, url) && url in TrimmedUrls(list) {
      var id :| id in t1.rows && IsOf(t1.rows[id], userID, entryID) && t1.rows[id].url == url;
      assert id in t'.rows && t'.rows[id] == t1.rows[id];
    }
  }

  /** The stored URLs become exactly the listed ones, duplicates and blanks dropped. A blank URL
      that the table already holds survives when the update lists a blank one too; that is
      the only exception, and createEnclosure never stores a blank URL. */
  lemma UpdatedUrlsAreTheListedOnes(t: EnclosureTable, userID: int, entryID: int, list: seq<Enclosure>)
    requires ValidTable(t)
    ensures Urls(Update(t, userID, entryID, list), userID, entryID) == Listed(list) <==>
            !("" in Urls(t, userID, entryID) && "" in TrimmedUrls(list))
  {
    var t' := Update(t, userID, entryID, list);
    forall url ensures url in Urls(t', userID, entryID) <==> HasUrl(t', userID, entryID, url) {}
    forall url ensures HasUrl(t', userID, entryID, url) <==>
              || url in Listed(list)
              || (url == "" && HasUrl(t, userID, entryID, "") && "" in TrimmedUrls(list))
    {
      UpdatedUrls(t, userID, entryID, list, url);
    }
    assert "" in Urls(t, userID, entryID) <==> HasUrl(t, userID, entryID, "");
    if Urls(t', userID, entryID) == Listed(list) {
      assert "" !in Urls(t', userID, entryID);
    }
  }

  /** No write ever stores a blank URL, so the exception above does not arise. */
  lemma UpdateStoresNoBlankUrl(t: EnclosureTable, userID: int, entryID: int, list: seq<Enclosure>)
    requires ValidTable(t)
    requires forall id :: id in t.rows ==> t.rows[id].url != ""
    ensures forall id :: id in Update(t, userID, entryID, list).rows ==> Update(t, userID, entryID, list).rows[id].url != ""
    ensures Urls(Update(t, userID, entryID, list), userID, entryID) == Listed(list)
  {
    UpdateResult(t, userID, entryID, list);
    UpdatedUrlsAreTheListedOnes(t, userID, entryID, list);
  }

  /** The table already holds exactly the listed URLs for this entry. */
  ghost predicate UpToDate(t: EnclosureTable, userID: int, entryID: int, list: seq<Enclosure>) {
    && (forall id :: id in t.rows && IsOf(t.rows[id], userID, entryID) ==> t.rows[id].url in TrimmedUrls(list))
    && (forall url :: url in Listed(list) ==> HasUrl(t, userID, entryID, url))
  }

  lemma UpdateBringsUpToDate(t: EnclosureTable, userID: int, entryID: int, list: seq<Enclosure>)
    requires ValidTable(t)
    ensures UpToDate(Update(t, userID, entryID, list), userID, entryID, list)
  {
    assert list == [] ==> TrimmedUrls(list) == {};
    forall url | url in Listed(list) ensures HasUrl(Update(t, userID, entryID, list), userID, entryID, url) {
      UpdatedUrls(t, userID, entryID, list, url);
    }
  }

  lemma UpdateOfUpToDateChangesNothing(t: EnclosureTable, userID: int, entryID: int, list: seq<Enclosure>)
    requires ValidTable(t) && UpToDate(t, userID, entryID, list)
    ensures Update(t, userID, entryID, list).rows == t.rows
  {
    var t' := Update(t, userID, entryID, list);
    UpdateResult(t, userID, entryID, list);
    forall id | id in t'.rows ensures id in t.rows {
      if id !in t.rows {
        assert false;
      }
    }
    assert forall id :: id in t.rows ==> id in t'.rows && t'.rows[id] == t.rows[id];
    assert t'.rows == t.rows;
  }

  /** Applying an update twice changes the rows only once. */
  lemma UpdateIsIdempotent(t: EnclosureTable, userID: int, entryID: int, list: seq<Enclosure>)
    requires ValidTable(t)
    ensures Update(Update(t, userID, entryID, list), userID, entryID, list).rows == Update(t, userID, entryID, list).rows
  {
    UpdateResult(t, userID, entryID, list);
    UpdateBringsUpToDate(t, userID, entryID, list);
    UpdateOfUpToDateChangesNothing(Update(t, userID, entryID, list), userID, entryID, list);
  }

  // ----- The same, column by column -----

  const WHITE_SPACE: set<char> := {
    '\t', '\n', '\U{0B}', '\U{0C}', '\r', ' ', '\U{85}', '\U{A0}', '\U{1680}',
    '\U{2000}', '\U{2001}', '\U{2002}', '\U{2003}', '\U{2004}', '\U{2005}', '\U{2006}', '\U{2007}', '\U{2008}',
    '\U{2009}', '\U{200A}', '\U{2028}', '\U{2029}', '\U{202F}', '\U{205F}', '\U{3000}'}

  /** The characters that strings.TrimSpace takes off. */
  lemma SpaceIsWhiteSpace(c: char)
    ensures IsSpace(c) <==> c in WHITE_SPACE
  {
  }

  /** A stored row holds what one listed enclosure says, for this user and entry; it is the first
      listed one with its URL. */
  ghost predicate IsFrom(row: EnclosureRow, userID: int, entryID: int, list: seq<Enclosure>) {
    exists i ::
      && 0 <= i < |list|
      && row.userID == userID && row.entryID == entryID && row.url == TrimSpace(list[i].url) != ""
      && row.size == list[i].size && row.mimeType == list[i].mimeType
      && row.mediaProgression == list[i].mediaProgression
      && forall j :: 0 <= j < i ==> TrimSpace(list[j].url) != row.url
  }

  ghost predicate Stores(rows: map<int, EnclosureRow>, userID: int, entryID: int, url: string) {
    exists id :: id in rows && rows[id].userID == userID && rows[id].entryID == entryID && rows[id].url == url
  }

  /** Every missing, non-blank listed URL gets one row under a fresh id. */
  ghost predicate AddsListed(before: EnclosureTable, after: EnclosureTable, userID: int, entryID: int, list: seq<Enclosure>) {
    && (forall id :: id in after.rows && id !in before.rows ==>
          && id >= before.nextID && IsFrom(after.rows[id], userID, entryID, list)
          && !Stores(before.rows, userID, entryID, after.rows[id].url))
    && (forall i :: 0 <= i < |list| && TrimSpace(list[i].url) != "" ==>
          Stores(after.rows, userID, entryID, TrimSpace(list[i].url)))
    && (forall i, j :: i in after.rows && j in after.rows && i != j ==>
          after.rows[i].userID != after.rows[j].userID || after.rows[i].entryID != after.rows[j].entryID
          || after.rows[i].url != after.rows[j].url)
  }

  /** Old rows stay as they are, except those of this user and entry whose URL is not listed. */
  ghost predicate KeepsOld(before: EnclosureTable, after: EnclosureTable, userID: int, entryID: int, list: seq<Enclosure>) {
    forall id :: id in before.rows ==>
      var row := before.rows[id];
      if row.userID == userID && row.entryID == entryID && forall i :: 0 <= i < |list| ==> TrimSpace(list[i].url) != row.url
      then id !in after.rows
      else id in after.rows && after.rows[id] == row
  }

  lemma {:induction false} FirstWithPosition(list: seq<Enclosure>, url: string) returns (i: nat)
    requires url in TrimmedUrls(list)
    ensures i < |list| && list[i] == FirstWith(list, url) && TrimSpace(list[i].url) == url
    ensures forall j :: 0 <= j < i ==> TrimSpace(list[j].url) != url
  {
    if TrimSpace(list[0].url) == url {
      i := 0;
    } else {
      assert list == [list[0]] + list[1..];
      var k := FirstWithPosition(list[1..], url);
      i := k + 1;
    }
  }

  lemma MadeIsFrom(t: EnclosureTable, row: EnclosureRow, userID: int, entryID: int, list: seq<Enclosure>)
    requires MadeFor(t, row, userID, entryID, list)
    ensures IsFrom(row, userID, entryID, list) && !Stores(t.rows, userID, entryID, row.url)
  {
    var i := FirstWithPosition(list, row.url);
    assert row.url == TrimSpace(list[i].url);
  }

  lemma StoresIsHasUrl(t: EnclosureTable, userID: int, entryID: int, url: string)
    ensures Stores(t.rows, userID, entryID, url) <==> HasUrl(t, userID, entryID, url)
  {
    if HasUrl(t, userID, entryID, url) {
      var id :| id in t.rows && IsOf(t.rows[id], userID, entryID) && t.rows[id].url == url;
      assert t.rows[id].userID == userID && t.rows[id].entryID == entryID;
    }
  }

  /** What inserting a list does to the rows. */
  lemma CreateAllInColumns(t: EnclosureTable, userID: int, entryID: int, list: seq<Enclosure>)
    requires ValidTable(t)
    ensures var t' := CreateAll(t, userID, entryID, list);
            && AddsListed(t, t', userID, entryID, list)
            && forall id :: id in t.rows ==> id in t'.rows && t'.rows[id] == t.rows[id]
  {
    var t' := CreateAll(t, userID, entryID, list);
    CreateAllKeepsValid(t, userID, entryID, list);
    CreateAllExtends(t, userID, entryID, list);
    forall id | id in t'.rows && id !in t.rows
      ensures IsFrom(t'.rows[id], userID, entryID, list) && !Stores(t.rows, userID, entryID, t'.rows[id].url)
    {
      MadeIsFrom(t, t'.rows[id], userID, entryID, list);
    }
    forall i | 0 <= i < |list| && TrimSpace(list[i].url) != ""
      ensures Stores(t'.rows, userID, entryID, TrimSpace(list[i].url))
    {
      assert list[i] in list && TrimSpace(list[i].url) in Listed(list);
      StoresIsHasUrl(t', userID, entryID, TrimSpace(list[i].url));
    }
    KeysDiffer(t');
  }

  lemma KeysDiffer(t: EnclosureTable)
    requires ValidTable(t)
    ensures forall i, j :: i in t.rows && j in t.rows && i != j ==>
              t.rows[i].userID != t.rows[j].userID || t.rows[i].entryID != t.rows[j].entryID || t.rows[i].url != t.rows[j].url
  {
    forall i, j | i in t.rows && j in t.rows && i != j
      ensures t.rows[i].userID != t.rows[j].userID || t.rows[i].entryID != t.rows[j].entryID || t.rows[i].url != t.rows[j].url
    {
      assert SameKey(t.rows[i], t.rows[j]) ==> i == j;
    }
  }

  lemma TrimmedUrlListed(list: seq<Enclosure>, url: string)
    ensures url in TrimmedUrls(list) <==> exists i :: 0 <= i < |list| && TrimSpace(list[i].url) == url
  {
    if url in TrimmedUrls(list) {
      var i := FirstWithPosition(list, url);
    }
    if i :| 0 <= i < |list| && TrimSpace(list[i].url) == url {
      assert list[i] in list;
    }
  }

  /** What an update does to the rows. */
  lemma UpdateInColumns(t: EnclosureTable, userID: int, entryID: int, list: seq<Enclosure>)
    requires ValidTable(t)
    ensures AddsListed(t, Update(t, userID, entryID, list), userID, entryID, list)
    ensures KeepsOld(t, Update(t, userID, entryID, list), userID, entryID, list)
  {
    var t' := Update(t, userID, entryID, list);
    UpdateResult(t, userID, entryID, list);
    forall id | id in t'.rows && id !in t.rows
      ensures IsFrom(t'.rows[id], userID, entryID, list) && !Stores(t.rows, userID, entryID, t'.rows[id].url)
    {
      MadeIsFrom(t, t'.rows[id], userID, entryID, list);
    }
    forall i | 0 <= i < |list| && TrimSpace(list[i].url) != ""
      ensures Stores(t'.rows, userID, entryID, TrimSpace(list[i].url))
    {
      assert list[i] in list && TrimSpace(list[i].url) in Listed(list);
      UpdatedUrls(t, userID, entryID, list, TrimSpace(list[i].url));
      StoresIsHasUrl(t', userID, entryID, TrimSpace(list[i].url));
    }
    KeysDiffer(t');
    forall id | id in t.rows ensures t.rows[id].url in TrimmedUrls(list) <==>
        exists i :: 0 <= i < |list| && TrimSpace(list[i].url) == t.rows[id].url
    {
      TrimmedUrlListed(list, t.rows[id].url);
    }
  }
}
