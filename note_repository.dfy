/**
 * The note table (server/src/infra/noteRepository.ts): the row/model
 * mapping and a repository whose table is a map from primary key `id` to
 * row, with a unique constraint on the optional `federatedId` column.
 */
module NoteRepository {
  import opened Wrappers

  /** A note as the application sees it. `createdAt` is milliseconds since the epoch. */
  datatype Note = Note(id: string, userId: string, content: string, createdAt: int, federatedId: Option<string>)

  /** A row of the note table; `federatedId` is the nullable column. */
  datatype NoteRow = NoteRow(id: string, userId: string, content: string, createdAt: int, federatedId: Option<string>)
  {
    /** `NoteTable.fromModel`: the row that stores `note`. */
    static function FromModel(note: Note): (row: NoteRow)
      ensures row.ToModel() == note
    {
      NoteRow(note.id, note.userId, note.content, note.createdAt, note.federatedId)
    }

    /** `NoteTable.toModel`: the note this row stores. */
    function ToModel(): Note
    {
      Note(id, userId, content, createdAt, federatedId)
    }
  }

  /** Storing a row's note again gives back the same row. */
  lemma RowRoundTrip(row: NoteRow)
    ensures NoteRow.FromModel(row.ToModel()) == row
  {
  }

  type Rows = map<string, NoteRow>

  /** The primary key: every row is stored under its own id. */
  ghost predicate KeyedById(rows: Rows) {
    forall id :: id in rows ==> rows[id].id == id
  }

  /** The unique constraint on `federatedId`; absent (NULL) values may repeat. */
  ghost predicate FederatedIdsUnique(rows: Rows) {
    forall a, b :: a in rows && b in rows && a != b && rows[a].federatedId.Some? ==>
      rows[a].federatedId != rows[b].federatedId
  }

  /** Whether a present `federatedId` is already held by a row other than `exceptId`. */
  predicate FederatedIdTaken(rows: Rows, federatedId: Option<string>, exceptId: string) {
    federatedId.Some? && exists id :: id in rows && id != exceptId && rows[id].federatedId == federatedId
  }

  /** Ordered by `createdAt` descending; the order among equal timestamps is not constrained. */
  ghost predicate NewestFirst(notes: seq<Note>) {
    forall i, j :: 0 <= i < j < |notes| ==> notes[i].createdAt >= notes[j].createdAt
  }

  ghost predicate DistinctIds(notes: seq<Note>) {
    forall i, j :: 0 <= i < j < |notes| ==> notes[i].id != notes[j].id
  }

  /** Inserts `note` into a newest-first sequence, before the first older note. */
  function InsertNewestFirst(note: Note, sorted: seq<Note>): seq<Note>
  {
    if sorted == [] then [note]
    else if note.createdAt >= sorted[0].createdAt then [note] + sorted
    else [sorted[0]] + InsertNewestFirst(note, sorted[1..])
  }

  /** Orders notes newest first: the `order: { createdAt: "DESC" }` of the query. */
  function SortNewestFirst(notes: seq<Note>): seq<Note>
  {
    if notes == [] then [] else InsertNewestFirst(notes[0], SortNewestFirst(notes[1..]))
  }

  /** Insertion adds exactly the one note. */
  lemma {:induction false} InsertNewestFirstPermutes(note: Note, sorted: seq<Note>)
    ensures multiset(InsertNewestFirst(note, sorted)) == multiset(sorted) + multiset{note}
  {
    if sorted != [] && note.createdAt < sorted[0].createdAt {
      InsertNewestFirstPermutes(note, sorted[1..]);
      assert sorted == [sorted[0]] + sorted[1..];
    }
  }

  /** A note no older than any note of a newest-first sequence can go in front of it. */
  lemma PrependNewest(note: Note, sorted: seq<Note>)
    requires NewestFirst(sorted)
    requires forall x :: x in sorted ==> note.createdAt >= x.createdAt
    ensures NewestFirst([note] + sorted)
  {
    var r := [note] + sorted;
    forall i, j | 0 <= i < j < |r| ensures r[i].createdAt >= r[j].createdAt {
      if i == 0 {
        assert r[j] == sorted[j - 1];
      } else {
        assert r[i] == sorted[i - 1] && r[j] == sorted[j - 1];
      }
    }
  }

  /** Insertion into a newest-first sequence keeps it newest first. */
  lemma {:induction false} InsertNewestFirstSorted(note: Note, sorted: seq<Note>)
    requires NewestFirst(sorted)
    ensures NewestFirst(InsertNewestFirst(note, sorted))
  {
    if sorted == [] {
    } else if note.createdAt >= sorted[0].createdAt {
      forall x | x in sorted ensures note.createdAt >= x.createdAt {
        var k :| 0 <= k < |sorted| && sorted[k] == x;
      }
      PrependNewest(note, sorted);
    } else {
      var head, tail := sorted[0], sorted[1..];
      var rest := InsertNewestFirst(note, tail);
      InsertNewestFirstSorted(note, tail);
      InsertNewestFirstPermutes(note, tail);
      forall x | x in rest ensures head.createdAt >= x.createdAt {
        assert x in multiset(rest);
        if x != note {
          var k :| 0 <= k < |tail| && tail[k] == x;
          assert sorted[k + 1] == x;
        }
      }
      PrependNewest(head, rest);
    }
  }

  /** Inserting a note with a new id keeps the ids distinct. */
  lemma {:induction false} InsertNewestFirstDistinct(note: Note, sorted: seq<Note>)
    requires DistinctIds(sorted) && forall x :: x in sorted ==> x.id != note.id
    ensures DistinctIds(InsertNewestFirst(note, sorted))
  {
    if sorted != [] && note.createdAt < sorted[0].createdAt {
      var head, tail := sorted[0], sorted[1..];
      var rest := InsertNewestFirst(note, tail);
      InsertNewestFirstDistinct(note, tail);
      InsertNewestFirstPermutes(note, tail);
      forall x | x in rest ensures x.id != head.id {
        assert x in multiset(rest);
        if x != note {
          var k :| 0 <= k < |tail| && tail[k] == x;
          assert sorted[k + 1] == x;
        }
      }
      PrependFreshId(head, rest);
    }
  }

  /** A note whose id no note of a sequence has can go in front of it. */
  lemma PrependFreshId(note: Note, notes: seq<Note>)
    requires DistinctIds(notes) && forall x :: x in notes ==> x.id != note.id
    ensures DistinctIds([note] + notes)
  {
    var r := [note] + notes;
    forall i, j | 0 <= i < j < |r| ensures r[i].id != r[j].id {
      if i == 0 {
        assert r[j] in notes;
      } else {
        assert r[i] == notes[i - 1] && r[j] == notes[j - 1];
      }
    }
  }

  /** Sorting yields a newest-first permutation of its input, and keeps ids distinct. */
  lemma {:induction false} SortNewestFirstCorrect(notes: seq<Note>)
    ensures NewestFirst(SortNewestFirst(notes))
    ensures multiset(SortNewestFirst(notes)) == multiset(notes)
    ensures DistinctIds(notes) ==> DistinctIds(SortNewestFirst(notes))
  {
    if notes != [] {
      var head, tail := notes[0], notes[1..];
      var rest := SortNewestFirst(tail);
      SortNewestFirstCorrect(tail);
      InsertNewestFirstSorted(head, rest);
      InsertNewestFirstPermutes(head, rest);
      assert notes == [head] + tail;
      if DistinctIds(notes) {
        forall x | x in rest ensures x.id != head.id {
          assert x in multiset(rest);
          var k :| 0 <= k < |tail| && tail[k] == x;
          assert notes[k + 1] == x;
        }
        InsertNewestFirstDistinct(head, rest);
      }
    }
  }

  /** The notes stored under `ids`, in the same order. */
  function NotesFor(rows: Rows, ids: seq<string>): (r: seq<Note>)
    requires forall id :: id in ids ==> id in rows
    ensures |r| == |ids|
    ensures forall i :: 0 <= i < |ids| ==> r[i] == rows[ids[i]].ToModel()
  {
    if ids == [] then [] else [rows[ids[0]].ToModel()] + NotesFor(rows, ids[1..])
  }

  /** The keys of a set listed once each, in some order. */
  ghost function SeqOfIds(ids: set<string>): (r: seq<string>)
    ensures |r| == |ids|
    ensures forall id :: id in r <==> id in ids
    ensures forall i, j :: 0 <= i < j < |r| ==> r[i] != r[j]
    decreases ids
  {
    if ids == {} then []
    else
      var id :| id in ids;
      [id] + SeqOfIds(ids - {id})
  }

  /**
   * The rows after `skip` matches, at most `take` of them. The ORM applies
   * `skip` and `take` only when they are non-zero, so a `take` of 0 sets no limit.
   */
  function Page<T>(xs: seq<T>, skip: nat, take: nat): (r: seq<T>)
    ensures |r| == PageLength(|xs|, skip, take)
    ensures forall i :: 0 <= i < |r| ==> skip + i < |xs| && r[i] == xs[skip + i]
  {
    var rest := if skip <= |xs| then xs[skip..] else [];
    if take == 0 || |rest| <= take then rest else rest[..take]
  }

  /** The number of matches skipped before page `page`. */
  function Offset(page: nat, perPage: nat): nat {
    page * perPage
  }

  /** How many of `total` matches a page holds. */
  function PageLength(total: nat, skip: nat, take: nat): nat {
    var remaining := if skip <= total then total - skip else 0;
    if take == 0 || remaining <= take then remaining else take
  }

  /**
   * Sorting the notes stored under a duplicate-free list of exactly the ids
   * of `userId`'s rows lists each of those notes once, newest first.
   */
  lemma SortedNotesFacts(rows: Rows, userId: string, ids: seq<string>)
    requires KeyedById(rows)
    requires forall i, j :: 0 <= i < j < |ids| ==> ids[i] != ids[j]
    requires forall id :: id in ids <==> id in rows && rows[id].userId == userId
    ensures NewestFirst(SortNewestFirst(NotesFor(rows, ids)))
    ensures DistinctIds(SortNewestFirst(NotesFor(rows, ids)))
    ensures |SortNewestFirst(NotesFor(rows, ids))| == |ids|
    ensures forall x :: x in SortNewestFirst(NotesFor(rows, ids)) ==>
      x.userId == userId && x.id in rows && rows[x.id].ToModel() == x
    ensures forall id :: id in rows && rows[id].userId == userId ==>
      exists x :: x in SortNewestFirst(NotesFor(rows, ids)) && x.id == id
  {
    var notes := NotesFor(rows, ids);
    var sorted := SortNewestFirst(notes);
    assert DistinctIds(notes) by {
      forall i, j | 0 <= i < j < |notes| ensures notes[i].id != notes[j].id {
        assert notes[i].id == ids[i] && notes[j].id == ids[j];
      }
    }
    SortNewestFirstCorrect(notes);
    assert |sorted| == |multiset(sorted)| == |multiset(notes)| == |notes|;
    forall x | x in sorted ensures x.userId == userId && x.id in rows && rows[x.id].ToModel() == x {
      assert x in multiset(notes);
      var k :| 0 <= k < |notes| && notes[k] == x;
      assert ids[k] in rows;
    }
    forall id | id in rows && rows[id].userId == userId
      ensures exists x :: x in sorted && x.id == id
    {
      var k :| 0 <= k < |ids| && ids[k] == id;
      assert notes[k] in multiset(sorted);
    }
  }

  /** A page of a newest-first list is newest first and holds only notes of the list. */
  lemma PageOfNewestFirst(xs: seq<Note>, skip: nat, take: nat)
    requires NewestFirst(xs)
    ensures NewestFirst(Page(xs, skip, take))
    ensures forall x :: x in Page(xs, skip, take) ==> x in xs
  {
    var r := Page(xs, skip, take);
    forall x | x in r ensures x in xs {
      var i :| 0 <= i < |r| && r[i] == x;
      assert xs[skip + i] == x;
    }
    forall i, j | 0 <= i < j < |r| ensures r[i].createdAt >= r[j].createdAt {
      assert r[i] == xs[skip + i] && r[j] == xs[skip + j];
    }
  }

  /**
   * The row `save` leaves under `note.id`: the note's row, except that an
   * update keeps the stored `federatedId` when the note has none.
   */
  function SavedRow(rows: Rows, note: Note): (row: NoteRow)
    ensures row.ToModel().(federatedId := note.federatedId) == note
    ensures note.federatedId.Some? || note.id !in rows ==> row == NoteRow.FromModel(note)
    ensures note.federatedId.None? && note.id in rows ==> row.federatedId == rows[note.id].federatedId
  {
    var row := NoteRow.FromModel(note);
    if note.federatedId.None? && note.id in rows then row.(federatedId := rows[note.id].federatedId) else row
  }

  /** The note table with the repository returned by `newNoteRepository`. */
  class NoteStore {
    var rows: Rows

    ghost predicate Valid()
      reads this
    {
      KeyedById(rows) && FederatedIdsUnique(rows)
    }

    constructor ()
      ensures Valid() && rows == map[]
    {
      rows := map[];
    }

    /** `findById`: the stored note with that id, or `undefined`. */
    function FindById(id: string): (r: Option<Note>)
      reads this
      requires Valid()
      ensures r.Some? <==> id in rows
      ensures r.Some? ==> r.value.id == id && NoteRow.FromModel(r.value) == rows[id]
    {
      if id in rows then Some(rows[id].ToModel()) else None
    }

    /** The ids of the rows matched by `where: { userId }`. */
    function MatchingIds(userId: string): set<string>
      reads this
    {
      set id | id in rows && rows[id].userId == userId
    }

    /** Every note of `userId`, newest first: the query before `skip` and `take`. */
    ghost function Listing(userId: string): (r: seq<Note>)
      reads this
      requires Valid()
      ensures NewestFirst(r) && DistinctIds(r)
      ensures |r| == |MatchingIds(userId)|
      ensures forall x :: x in r ==> x.userId == userId && FindById(x.id) == Some(x)
      ensures forall id :: id in rows && rows[id].userId == userId ==> exists x :: x in r && x.id == id
    {
      var ids := SeqOfIds(MatchingIds(userId));
      SortedNotesFacts(rows, userId, ids);
      SortNewestFirst(NotesFor(rows, ids))
    }

    /** `findCount`: how many stored notes belong to `userId`. */
    function FindCount(userId: string): (n: nat)
      reads this
      requires Valid()
      ensures n == |Listing(userId)|
    {
      |MatchingIds(userId)|
    }

    /**
     * `findLatest`: the notes of `userId`, newest first, after skipping
     * `page * perPage` of them and taking `perPage`.
     */
    ghost function FindLatest(userId: string, page: nat, perPage: nat): (r: seq<Note>)
      reads this
      requires Valid()
      ensures forall x :: x in r ==> x.userId == userId && FindById(x.id) == Some(x)
      ensures NewestFirst(r)
      ensures perPage > 0 ==> |r| <= perPage
      ensures |r| == PageLength(FindCount(userId), Offset(page, perPage), perPage)
      ensures forall i :: 0 <= i < |r| ==>
        Offset(page, perPage) + i < |Listing(userId)| && r[i] == Listing(userId)[Offset(page, perPage) + i]
    {
      var listing := Listing(userId);
      PageOfNewestFirst(listing, Offset(page, perPage), perPage);
      Page(listing, Offset(page, perPage), perPage)
    }

    /** `create`: inserts a new row; the primary key or the unique constraint may reject it. */
    method Create(note: Note) returns (ok: bool)
      requires Valid()
      modifies this
      ensures Valid()
      ensures ok <==> note.id !in old(rows) && !FederatedIdTaken(old(rows), note.federatedId, note.id)
      ensures ok ==> rows == old(rows)[note.id := NoteRow.FromModel(note)] && FindById(note.id) == Some(note)
      ensures ok ==> FindCount(note.userId) == old(FindCount(note.userId)) + 1
      ensures forall userId :: userId != note.userId ==> FindCount(userId) == old(FindCount(userId))
      ensures !ok ==> rows == old(rows)
    {
      if note.id in rows || FederatedIdTaken(rows, note.federatedId, note.id) {
        ok := false;
      } else {
        ghost var before := rows;
        rows := rows[note.id := NoteRow.FromModel(note)];
        ok := true;
        assert MatchingIds(note.userId) == (set id | id in before && before[id].userId == note.userId) + {note.id};
        forall userId | userId != note.userId
          ensures MatchingIds(userId) == set id | id in before && before[id].userId == userId
        {
        }
      }
    }

    /**
     * `save`: inserts the row, or updates the row with the note's id. An
     * update leaves columns whose new value is `undefined` as they were, so
     * a note without `federatedId` keeps the stored one. The unique
     * constraint may reject the row.
     */
    method Save(note: Note) returns (ok: bool)
      requires Valid()
      modifies this
      ensures Valid()
      ensures ok <==> !FederatedIdTaken(old(rows), note.federatedId, note.id)
      ensures ok ==> rows == old(rows)[note.id := SavedRow(old(rows), note)]
      ensures ok && (note.federatedId.Some? || note.id !in old(rows)) ==> FindById(note.id) == Some(note)
      ensures ok && note.federatedId.None? && note.id in old(rows) ==>
        FindById(note.id) == Some(note.(federatedId := old(rows)[note.id].federatedId))
      ensures forall id :: id != note.id ==> FindById(id) == old(FindById(id))
      ensures !ok ==> rows == old(rows)
    {
      if FederatedIdTaken(rows, note.federatedId, note.id) {
        ok := false;
      } else {
        rows := rows[note.id := SavedRow(rows, note)];
        ok := true;
      }
    }

    /** `delete`: removes the row with that id, if there is one. */
    method Delete(id: string)
      requires Valid()
      modifies this
      ensures Valid()
      ensures rows == old(rows) - {id}
      ensures FindById(id) == None
      ensures forall other :: other != id ==> FindById(other) == old(FindById(other))
      ensures id !in old(rows) ==> rows == old(rows)
      ensures id in old(rows) ==> FindCount(old(rows)[id].userId) == old(FindCount(rows[id].userId)) - 1
      ensures forall userId :: id !in old(rows) || userId != old(rows)[id].userId ==>
        FindCount(userId) == old(FindCount(userId))
    {
      ghost var before := rows;
      rows := rows - {id};
      if id in before {
        var owner := before[id].userId;
        assert (set k | k in before && before[k].userId == owner) == MatchingIds(owner) + {id};
      }
      forall userId | id !in before || userId != before[id].userId
        ensures MatchingIds(userId) == set k | k in before && before[k].userId == userId
      {
      }
    }
  }

  /** No two of `userId`'s rows share a `createdAt`, so `ORDER BY createdAt DESC` fixes their order. */
  ghost predicate DistinctTimes(rows: Rows, userId: string) {
    forall a, b :: a in rows && b in rows && a != b && rows[a].userId == userId && rows[b].userId == userId ==>
      rows[a].createdAt != rows[b].createdAt
  }

  /** Two newest-first arrangements of the same notes with distinct timestamps start with the same note. */
  lemma SameNewest(xs: seq<Note>, ys: seq<Note>)
    requires xs != [] && NewestFirst(xs) && NewestFirst(ys) && multiset(xs) == multiset(ys)
    requires forall i, j :: 0 <= i < j < |xs| ==> xs[i].createdAt != xs[j].createdAt
    ensures ys != [] && xs[0] == ys[0]
  {
    assert xs[0] in multiset(ys);
    var m :| 0 <= m < |ys| && ys[m] == xs[0];
    assert ys[0] in multiset(xs);
    var k :| 0 <= k < |xs| && xs[k] == ys[0];
    assert ys[0].createdAt >= ys[m].createdAt;
    assert xs[0].createdAt >= xs[k].createdAt;
    assert xs[0].createdAt == xs[k].createdAt;
  }

  /** Dropping the same first note from two arrangements of the same notes leaves arrangements of the same notes. */
  lemma SameRest(xs: seq<Note>, ys: seq<Note>)
    requires xs != [] && ys != [] && xs[0] == ys[0] && multiset(xs) == multiset(ys)
    ensures multiset(xs[1..]) == multiset(ys[1..])
  {
    assert xs == [xs[0]] + xs[1..] && ys == [ys[0]] + ys[1..];
    assert multiset(xs) == multiset{xs[0]} + multiset(xs[1..]);
    assert multiset(ys) == multiset{ys[0]} + multiset(ys[1..]);
    assert multiset(xs[1..]) == multiset(xs) - multiset{xs[0]};
    assert multiset(ys[1..]) == multiset(ys) - multiset{ys[0]};
  }

  /** Two newest-first arrangements of the same notes with distinct timestamps are the same sequence. */
  lemma {:induction false} NewestFirstUnique(xs: seq<Note>, ys: seq<Note>)
    requires NewestFirst(xs) && NewestFirst(ys) && multiset(xs) == multiset(ys)
    requires forall i, j :: 0 <= i < j < |xs| ==> xs[i].createdAt != xs[j].createdAt
    ensures xs == ys
  {
    if xs == [] {
      assert |ys| == |multiset(ys)| == 0;
    } else {
      SameNewest(xs, ys);
      SameRest(xs, ys);
      var xt, yt := xs[1..], ys[1..];
      assert NewestFirst(xt) by {
        forall i, j | 0 <= i < j < |xt| ensures xt[i].createdAt >= xt[j].createdAt {
          assert xt[i] == xs[i + 1] && xt[j] == xs[j + 1];
        }
      }
      assert NewestFirst(yt) by {
        forall i, j | 0 <= i < j < |yt| ensures yt[i].createdAt >= yt[j].createdAt {
          assert yt[i] == ys[i + 1] && yt[j] == ys[j + 1];
        }
      }
      forall i, j | 0 <= i < j < |xt| ensures xt[i].createdAt != xt[j].createdAt {
        assert xt[i] == xs[i + 1] && xt[j] == xs[j + 1];
      }
      NewestFirstUnique(xt, yt);
      assert xs == [xs[0]] + xt && ys == [ys[0]] + yt;
    }
  }

  /**
   * While no two of the user's notes share a `createdAt`, every newest-first
   * arrangement of them is the listing: each paged query sees the same order.
   */
  lemma ListingIsTheQueryOrder(store: NoteStore, userId: string, order: seq<Note>)
    requires store.Valid() && DistinctTimes(store.rows, userId)
    requires NewestFirst(order) && multiset(order) == multiset(store.Listing(userId))
    ensures order == store.Listing(userId)
  {
    var listing := store.Listing(userId);
    forall i, j | 0 <= i < j < |listing| ensures listing[i].createdAt != listing[j].createdAt {
      assert listing[i] in listing && listing[j] in listing;
    }
    NewestFirstUnique(listing, order);
  }

  /** Position `i` lies in block `i / k` of size `k`. */
  lemma DivisionBlock(i: nat, k: nat)
    requires k > 0
    ensures Offset(i / k, k) <= i < Offset(i / k, k) + k
  {
    assert i == k * (i / k) + i % k;
    assert k * (i / k) == (i / k) * k;
  }

  /** Block `p` of size `k` ends at or before block `q` starts. */
  lemma {:induction false} BlocksOrdered(p: nat, q: nat, k: nat)
    requires p < q
    ensures Offset(p, k) + k <= Offset(q, k)
  {
    if p + 1 < q {
      BlocksOrdered(p, q - 1, k);
      assert (q - 1) * k + k == q * k;
    } else {
      assert p * k + k == (p + 1) * k;
    }
  }

  /** An element at position `i` is on the page that starts at or before `i` and holds `take > i - skip` elements. */
  lemma {:induction false} OnItsPage<T>(xs: seq<T>, skip: nat, take: nat, i: nat)
    requires skip <= i < skip + take && i < |xs|
    ensures xs[i] in Page(xs, skip, take)
  {
    var r := Page(xs, skip, take);
    assert r[i - skip] == xs[i];
  }

  /** Two pages of a list with distinct ids share no id when the first ends before the second starts. */
  lemma {:induction false} PagesSeparate(xs: seq<Note>, take: nat, skip1: nat, skip2: nat)
    requires DistinctIds(xs) && take > 0 && skip1 + take <= skip2
    ensures forall a, b :: a in Page(xs, skip1, take) && b in Page(xs, skip2, take) ==> a.id != b.id
  {
    var r1 := Page(xs, skip1, take);
    var r2 := Page(xs, skip2, take);
    forall a, b | a in r1 && b in r2 ensures a.id != b.id {
      var i :| 0 <= i < |r1| && r1[i] == a;
      var j :| 0 <= j < |r2| && r2[j] == b;
      assert a == xs[skip1 + i] && b == xs[skip2 + j];
    }
  }

  /**
   * With a non-zero page size, the note at position `i` of the listing is
   * on page `i / perPage`. Each page is a query of its own, so this holds
   * only while no two of the user's notes share a `createdAt`.
   */
  lemma {:induction false} EveryNoteIsOnItsPage(store: NoteStore, userId: string, perPage: nat, i: nat, page: nat)
    requires store.Valid() && DistinctTimes(store.rows, userId)
    requires perPage > 0 && i < store.FindCount(userId) && page == i / perPage
    ensures store.Listing(userId)[i] in store.FindLatest(userId, page, perPage)
  {
    DivisionBlock(i, perPage);
    OnItsPage(store.Listing(userId), Offset(page, perPage), perPage, i);
  }

  /**
   * With a non-zero page size, two different pages share no note, again
   * only while no two of the user's notes share a `createdAt`.
   */
  lemma {:induction false} PagesAreDisjoint(store: NoteStore, userId: string, p: nat, q: nat, perPage: nat)
    requires store.Valid() && DistinctTimes(store.rows, userId)
    requires perPage > 0 && p < q
    ensures forall a, b :: a in store.FindLatest(userId, p, perPage) && b in store.FindLatest(userId, q, perPage) ==>
      a.id != b.id
  {
    BlocksOrdered(p, q, perPage);
    PagesSeparate(store.Listing(userId), perPage, Offset(p, perPage), Offset(q, perPage));
  }
}
