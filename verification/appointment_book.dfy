/** A terminal's appointment book (src/jbarge/Terminal.java, field
    `appointments` and method `addAppointment`). The Java keeps the book in a
    LinkedHashMap keyed by barge; here it is a sequence of entries whose order
    is the map's iteration order, and `Put` has the map's semantics: a new key
    is appended, an existing key keeps its position and gets the new value. */
module AppointmentBook {
  import opened Events

  /** The stored tuple: latest arrival time, latest starting time, planned
      starting time, processing (handling) time and expected departure time. */
  datatype Appointment = Appointment(barge: BargeId, lat: int, lst: int, pst: int, pt: int, edt: int)

  type Book = seq<Appointment>

  /** The barges of the book, in book order. */
  function Keys(book: Book): (ks: seq<BargeId>)
    ensures |ks| == |book|
    ensures forall i | 0 <= i < |book| :: ks[i] == book[i].barge
  {
    seq(|book|, i requires 0 <= i < |book| => book[i].barge)
  }

  predicate Has(book: Book, b: BargeId) {
    b in Keys(book)
  }

  predicate DistinctBarges(book: Book) {
    forall i, j | 0 <= i < j < |book| :: book[i].barge != book[j].barge
  }

  predicate SortedByLst(book: Book) {
    forall i, j | 0 <= i < j < |book| :: book[i].lst <= book[j].lst
  }

  /** Index of the first entry of barge `b`. */
  function Position(book: Book, b: BargeId): (p: nat)
    requires Has(book, b)
    ensures p < |book| && book[p].barge == b
    ensures forall j | 0 <= j < p :: book[j].barge != b
  {
    if book[0].barge == b then 0
    else
      assert Keys(book) == [book[0].barge] + Keys(book[1..]);
      Position(book[1..], b) + 1
  }

  /** LinkedHashMap.put: replace the value of an existing key in place,
      otherwise append. */
  function Put(book: Book, a: Appointment): Book {
    if Has(book, a.barge) then book[Position(book, a.barge) := a] else book + [a]
  }

  /** The effect of putting the entries of `s` one after another. */
  function PutAll(acc: Book, s: seq<Appointment>): Book
    decreases |s|
  {
    if |s| == 0 then acc else PutAll(Put(acc, s[0]), s[1..])
  }

  /** Number of leading entries whose LST is strictly smaller than `lst`: the
      scan of addAppointment stops at the first entry with LST >= `lst`. */
  function InsertionPoint(book: Book, lst: int): (i: nat)
    ensures i <= |book|
    ensures forall k | 0 <= k < i :: book[k].lst < lst
    ensures i < |book| ==> book[i].lst >= lst
  {
    if |book| == 0 || lst <= book[0].lst then 0 else InsertionPoint(book[1..], lst) + 1
  }

  /** The tuple addAppointment stores: PST = LST and EDT = PST + PT. */
  function NewAppointment(b: BargeId, lat: int, lst: int, pt: int): Appointment {
    Appointment(b, lat, lst, lst, pt, lst + pt)
  }

  /** addAppointment: the Java rebuilds the map by putting, in order, the
      entries before the insertion point, the new entry and the remaining
      entries. */
  function AddAppointment(book: Book, b: BargeId, lat: int, lst: int, pt: int): Book {
    var i := InsertionPoint(book, lst);
    PutAll([], book[..i] + [NewAppointment(b, lat, lst, pt)] + book[i..])
  }

  /** Map.remove: drop the entry of barge `b`, keeping the order of the rest. */
  function Remove(book: Book, b: BargeId): (r: Book)
    ensures Has(book, b) ==> |r| == |book| - 1
    ensures !Has(book, b) ==> r == book
    ensures SortedByLst(book) ==> SortedByLst(r)
    ensures DistinctBarges(book) ==> DistinctBarges(r) && !Has(r, b)
    ensures forall c | c != b :: Has(r, c) == Has(book, c)
  {
    if Has(book, b) then
      var p := Position(book, b);
      var r := book[..p] + book[p + 1..];
      assert forall k | 0 <= k < |r| :: r[k] == book[if k < p then k else k + 1];
      assert forall c | c != b && Has(book, c) :: Has(r, c) by {
        forall c | c != b && Has(book, c) ensures Has(r, c) {
          var k :| 0 <= k < |book| && Keys(book)[k] == c;
          assert Keys(r)[if k < p then k else k - 1] == c;
        }
      }
      r
    else book
  }

  // ---------------------------------------------------------------------------
  // Facts about PutAll

  lemma {:induction false} PutAllAppend(acc: Book, s1: seq<Appointment>, s2: seq<Appointment>)
    ensures PutAll(acc, s1 + s2) == PutAll(PutAll(acc, s1), s2)
    decreases |s1|
  {
    if |s1| == 0 {
      assert s1 + s2 == s2;
    } else {
      assert (s1 + s2)[0] == s1[0];
      assert (s1 + s2)[1..] == s1[1..] + s2;
      PutAllAppend(Put(acc, s1[0]), s1[1..], s2);
    }
  }

  /** Putting entries with distinct keys that are not in `acc` appends them. */
  lemma {:induction false} PutAllFresh(acc: Book, s: seq<Appointment>)
    requires DistinctBarges(s)
    requires forall k | 0 <= k < |s| :: s[k].barge !in Keys(acc)
    ensures PutAll(acc, s) == acc + s
    decreases |s|
  {
    if |s| > 0 {
      var acc' := acc + [s[0]];
      assert Put(acc, s[0]) == acc';
      assert Keys(acc') == Keys(acc) + [s[0].barge];
      forall k | 0 <= k < |s[1..]| ensures s[1..][k].barge !in Keys(acc') {
        assert s[1..][k] == s[k + 1];
      }
      PutAllFresh(acc', s[1..]);
      assert acc' + s[1..] == acc + s;
    }
  }

  lemma PutOne(acc: Book, a: Appointment)
    ensures PutAll(acc, [a]) == Put(acc, a)
  {
    assert [a][1..] == [];
  }

  lemma PositionUnique(book: Book, b: BargeId, p: nat)
    requires DistinctBarges(book) && p < |book| && book[p].barge == b
    ensures Has(book, b) && Position(book, b) == p
  {
    assert Keys(book)[p] == b;
  }

  lemma DistinctSlice(book: Book, i: nat, j: nat)
    requires DistinctBarges(book) && i <= j <= |book|
    ensures DistinctBarges(book[i..j])
  {
    forall x, y | 0 <= x < y < j - i ensures book[i..j][x].barge != book[i..j][y].barge {
      assert book[i..j][x] == book[i + x] && book[i..j][y] == book[i + y];
    }
  }

  lemma DistinctSuffix(book: Book, i: nat)
    requires DistinctBarges(book) && i <= |book|
    ensures DistinctBarges(book[i..])
  {
    forall x, y | 0 <= x < y < |book| - i ensures book[i..][x].barge != book[i..][y].barge {
      assert book[i..][x] == book[i + x] && book[i..][y] == book[i + y];
    }
  }

  // ---------------------------------------------------------------------------
  // Insertion into the book

  /** The entries of `book[..i] + [a] + book[i..]`, position by position. */
  lemma InsertAt(book: Book, i: nat, a: Appointment)
    requires i <= |book|
    ensures var s := book[..i] + [a] + book[i..];
            && |s| == |book| + 1
            && forall k | 0 <= k < |s| :: s[k] == if k < i then book[k] else if k == i then a else book[k - 1]
  {
  }

  lemma NotInBook(book: Book, b: BargeId)
    requires !Has(book, b)
    ensures forall k | 0 <= k < |book| :: book[k].barge != b
  {
    forall k | 0 <= k < |book| ensures book[k].barge != b {
      assert Keys(book)[k] == book[k].barge;
    }
  }

  /** Putting `book[..i] + [a] + book[i..]` into an empty map, when `a`'s barge
      is not in the book, yields exactly that sequence. */
  lemma PutsFresh(book: Book, i: nat, a: Appointment)
    requires DistinctBarges(book) && i <= |book| && !Has(book, a.barge)
    ensures PutAll([], book[..i] + [a] + book[i..]) == book[..i] + [a] + book[i..]
  {
    var s := book[..i] + [a] + book[i..];
    InsertAt(book, i, a);
    NotInBook(book, a.barge);
    PutAllFresh([], s);
    assert [] + s == s;
  }

  lemma PutAllChain(x1: Book, x2: Book, x3: Book, x4: Book, r2: Book, r3: Book, r4: Book)
    requires PutAll([], x1) == x1
    requires PutAll(x1, x2) == r2
    requires PutAll(r2, x3) == r3
    requires PutAll(r3, x4) == r4
    ensures PutAll([], x1 + x2 + x3 + x4) == r4
  {
    PutAllAppend([], x1 + x2 + x3, x4);
    PutAllAppend([], x1 + x2, x3);
    PutAllAppend([], x1, x2);
  }

  /** The same puts when `a`'s barge already sits at position p < i. */
  lemma PutsReplaceBefore(book: Book, i: nat, p: nat, a: Appointment)
    requires DistinctBarges(book) && p < i <= |book| && book[p].barge == a.barge
    ensures PutAll([], book[..i] + [a] + book[i..]) == book[p := a]
  {
    var mid := book[..i][p := a];
    ReplacedPrefix(book, i);
    ReplacedOverwrite(book, i, p, a);
    ReplacedSuffix(book, i, p, a);
    PutAllAppend([], book[..i] + [a], book[i..]);
    PutAllAppend([], book[..i], [a]);
    ReplacedJoin(book, i, p, a);
  }

  lemma ReplacedJoin(book: Book, i: nat, p: nat, a: Appointment)
    requires p < i <= |book|
    ensures book[..i][p := a] + book[i..] == book[p := a]
  {
  }

  lemma ReplacedPrefix(book: Book, i: nat)
    requires DistinctBarges(book) && i <= |book|
    ensures PutAll([], book[..i]) == book[..i]
  {
    DistinctSlice(book, 0, i);
    assert book[0..i] == book[..i];
    PutAllFresh([], book[..i]);
    assert [] + book[..i] == book[..i];
  }

  lemma ReplacedOverwrite(book: Book, i: nat, p: nat, a: Appointment)
    requires DistinctBarges(book) && p < i <= |book| && book[p].barge == a.barge
    ensures PutAll(book[..i], [a]) == book[..i][p := a]
  {
    DistinctSlice(book, 0, i);
    assert book[0..i] == book[..i];
    PositionUnique(book[..i], a.barge, p);
    PutOne(book[..i], a);
  }

  lemma ReplacedSuffix(book: Book, i: nat, p: nat, a: Appointment)
    requires DistinctBarges(book) && p < i <= |book| && book[p].barge == a.barge
    ensures PutAll(book[..i][p := a], book[i..]) == book[..i][p := a] + book[i..]
  {
    var mid := book[..i][p := a];
    forall k | 0 <= k < |book[i..]| ensures book[i..][k].barge !in Keys(mid) {
      assert book[i..][k] == book[i + k];
      assert forall m | 0 <= m < |mid| :: Keys(mid)[m] == book[m].barge;
    }
    DistinctSuffix(book, i);
    PutAllFresh(mid, book[i..]);
  }

  /** The same puts when `a`'s barge sits at position p >= i. */
  lemma PutsMoveAfter(book: Book, i: nat, p: nat, a: Appointment)
    requires DistinctBarges(book) && i <= p < |book| && book[p].barge == a.barge
    ensures PutAll([], book[..i] + [a] + book[i..]) == book[..i] + [book[p]] + book[i..p] + book[p + 1..]
  {
    var x1 := book[..i] + [a];
    var x2 := book[i..p];
    var x3 := [book[p]];
    var x4 := book[p + 1..];
    assert book[i..] == x2 + x3 + x4;
    assert book[..i] + [a] + book[i..] == x1 + x2 + x3 + x4;
    MovedPrefix(book, i, p, a);
    MovedMiddle(book, i, p, a);
    MovedOverwrite(book, i, p, a);
    MovedSuffix(book, i, p);
    PutAllChain(x1, x2, x3, x4, x1 + x2, book[..i] + x3 + x2, book[..i] + x3 + x2 + x4);
  }

  lemma MovedPrefix(book: Book, i: nat, p: nat, a: Appointment)
    requires DistinctBarges(book) && i <= p < |book| && book[p].barge == a.barge
    ensures PutAll([], book[..i] + [a]) == book[..i] + [a]
  {
    var s := book[..i] + [a];
    forall x, y | 0 <= x < y < |s| ensures s[x].barge != s[y].barge {
      if y == i { assert s[x] == book[x]; } else { assert s[x] == book[x] && s[y] == book[y]; }
    }
    PutAllFresh([], s);
    assert [] + s == s;
  }

  lemma MovedMiddle(book: Book, i: nat, p: nat, a: Appointment)
    requires DistinctBarges(book) && i <= p < |book| && book[p].barge == a.barge
    ensures PutAll(book[..i] + [a], book[i..p]) == book[..i] + [a] + book[i..p]
  {
    var s1 := book[..i] + [a];
    forall k | 0 <= k < |book[i..p]| ensures book[i..p][k].barge !in Keys(s1) {
      assert book[i..p][k] == book[i + k];
      assert forall m | 0 <= m < |s1| :: Keys(s1)[m] == book[if m < i then m else p].barge;
    }
    DistinctSlice(book, i, p);
    PutAllFresh(s1, book[i..p]);
  }

  lemma MovedOverwrite(book: Book, i: nat, p: nat, a: Appointment)
    requires DistinctBarges(book) && i <= p < |book| && book[p].barge == a.barge
    ensures PutAll(book[..i] + [a] + book[i..p], [book[p]]) == book[..i] + [book[p]] + book[i..p]
  {
    var s2 := book[..i] + [a] + book[i..p];
    assert forall m | 0 <= m < |s2| :: s2[m].barge == book[if m < i then m else if m == i then p else m - 1].barge;
    assert DistinctBarges(s2) by {
      forall x, y | 0 <= x < y < |s2| ensures s2[x].barge != s2[y].barge {
        assert s2[x].barge == book[if x < i then x else if x == i then p else x - 1].barge;
        assert s2[y].barge == book[if y < i then y else if y == i then p else y - 1].barge;
      }
    }
    PositionUnique(s2, a.barge, i);
    PutOne(s2, book[p]);
    assert s2[i := book[p]] == book[..i] + [book[p]] + book[i..p];
  }

  lemma MovedSuffix(book: Book, i: nat, p: nat)
    requires DistinctBarges(book) && i <= p < |book|
    ensures PutAll(book[..i] + [book[p]] + book[i..p], book[p + 1..])
         == book[..i] + [book[p]] + book[i..p] + book[p + 1..]
  {
    var s3 := book[..i] + [book[p]] + book[i..p];
    var suffix := book[p + 1..];
    forall k | 0 <= k < |suffix| ensures suffix[k].barge !in Keys(s3) {
      assert suffix[k] == book[p + 1 + k];
      assert forall m | 0 <= m < |s3| :: Keys(s3)[m] == book[if m < i then m else if m == i then p else m - 1].barge;
    }
    DistinctSuffix(book, p + 1);
    PutAllFresh(s3, book[p + 1..]);
  }

  /** Properties of a book with entry `a` inserted at position `i`. */
  lemma InsertedBook(book: Book, i: nat, a: Appointment)
    requires i <= |book| && DistinctBarges(book) && !Has(book, a.barge)
    ensures var s := book[..i] + [a] + book[i..];
            && |s| == |book| + 1
            && DistinctBarges(s)
            && Has(s, a.barge)
            && (SortedByLst(book)
                && (forall k | 0 <= k < i :: book[k].lst < a.lst)
                && (i < |book| ==> book[i].lst >= a.lst)
                ==> SortedByLst(s))
  {
    var s := book[..i] + [a] + book[i..];
    InsertAt(book, i, a);
    NotInBook(book, a.barge);
    assert Keys(s)[i] == a.barge;
  }

  // ---------------------------------------------------------------------------
  // Insertion into the book

  /** A barge that is not yet in the book is inserted just before the first
      entry whose LST is at least its own (see InsertionPoint), with PST = LST
      and EDT = LST + PT; every other entry keeps its value and relative order. */
  lemma AddAppointmentFresh(book: Book, b: BargeId, lat: int, lst: int, pt: int)
    requires DistinctBarges(book) && !Has(book, b)
    ensures var i := InsertionPoint(book, lst);
            (AddAppointment(book, b, lat, lst, pt)
             == book[..i] + [Appointment(b, lat, lst, lst, pt, lst + pt)] + book[i..])
  {
    PutsFresh(book, InsertionPoint(book, lst), NewAppointment(b, lat, lst, pt));
  }

  /** Insertion keeps the book sorted by LST and free of duplicate barges,
      grows it by one and registers the barge. */
  lemma AddAppointmentKeepsSorted(book: Book, b: BargeId, lat: int, lst: int, pt: int)
    requires DistinctBarges(book) && !Has(book, b)
    ensures |AddAppointment(book, b, lat, lst, pt)| == |book| + 1
    ensures SortedByLst(book) ==> SortedByLst(AddAppointment(book, b, lat, lst, pt))
    ensures DistinctBarges(AddAppointment(book, b, lat, lst, pt))
    ensures Has(AddAppointment(book, b, lat, lst, pt), b)
  {
    AddAppointmentFresh(book, b, lat, lst, pt);
    InsertedBook(book, InsertionPoint(book, lst), NewAppointment(b, lat, lst, pt));
  }

  /** Registering a barge that is already in the book, positioned before the
      insertion point, replaces its entry in place. */
  lemma AddAppointmentExistingBefore(book: Book, b: BargeId, lat: int, lst: int, pt: int)
    requires DistinctBarges(book) && Has(book, b)
    requires Position(book, b) < InsertionPoint(book, lst)
    ensures AddAppointment(book, b, lat, lst, pt)
         == book[Position(book, b) := Appointment(b, lat, lst, lst, pt, lst + pt)]
  {
    PutsReplaceBefore(book, InsertionPoint(book, lst), Position(book, b), NewAppointment(b, lat, lst, pt));
  }

  /** Registering a barge that is already in the book, positioned at or after
      the insertion point, moves its entry to the insertion point but keeps its
      OLD value: the later put of the old key overwrites the new tuple. */
  lemma AddAppointmentExistingAfter(book: Book, b: BargeId, lat: int, lst: int, pt: int)
    requires DistinctBarges(book) && Has(book, b)
    requires InsertionPoint(book, lst) <= Position(book, b)
    ensures var i := InsertionPoint(book, lst);
            var p := Position(book, b);
            AddAppointment(book, b, lat, lst, pt) == book[..i] + [book[p]] + book[i..p] + book[p + 1..]
  {
    PutsMoveAfter(book, InsertionPoint(book, lst), Position(book, b), NewAppointment(b, lat, lst, pt));
  }

  lemma MovedBook(book: Book, i: nat, p: nat)
    requires DistinctBarges(book) && i <= p < |book|
    ensures |book[..i] + [book[p]] + book[i..p] + book[p + 1..]| == |book|
    ensures DistinctBarges(book[..i] + [book[p]] + book[i..p] + book[p + 1..])
    ensures (book[..i] + [book[p]] + book[i..p] + book[p + 1..])[i] == book[p]
    ensures var r := book[..i] + [book[p]] + book[i..p] + book[p + 1..];
            r[..i] + r[i + 1..] == book[..p] + book[p + 1..]
  {
    var r := book[..i] + [book[p]] + book[i..p] + book[p + 1..];
    assert forall k | 0 <= k < |r| :: r[k] == book[if k < i then k else if k == i then p else if k <= p then k - 1 else k];
    forall x, y | 0 <= x < y < |r| ensures r[x].barge != r[y].barge {
      assert r[x] == book[if x < i then x else if x == i then p else if x <= p then x - 1 else x];
      assert r[y] == book[if y < i then y else if y == i then p else if y <= p then y - 1 else y];
    }
    assert r[..i] + r[i + 1..] == book[..i] + book[i..p] + book[p + 1..];
    assert book[..p] == book[..i] + book[i..p];
  }

  /** Registering a barge that is already in the book never adds an entry. */
  lemma AddAppointmentExisting(book: Book, b: BargeId, lat: int, lst: int, pt: int)
    requires DistinctBarges(book) && Has(book, b)
    ensures |AddAppointment(book, b, lat, lst, pt)| == |book|
    ensures DistinctBarges(AddAppointment(book, b, lat, lst, pt))
    ensures Has(AddAppointment(book, b, lat, lst, pt), b)
  {
    var i := InsertionPoint(book, lst);
    var p := Position(book, b);
    if p < i {
      PutsReplaceBefore(book, i, p, NewAppointment(b, lat, lst, pt));
      var r := book[p := NewAppointment(b, lat, lst, pt)];
      assert forall k | 0 <= k < |r| :: r[k].barge == book[k].barge;
      assert Keys(r)[p] == b;
    } else {
      PutsMoveAfter(book, i, p, NewAppointment(b, lat, lst, pt));
      MovedBook(book, i, p);
      var r := book[..i] + [book[p]] + book[i..p] + book[p + 1..];
      assert Keys(r)[i] == b;
    }
  }

  // ---------------------------------------------------------------------------
  // Removal after insertion

  /** Removing a barge after registering it gives the book with the barge
      removed, whether or not the barge was already registered: the basis of
      re-planning, which first removes the barge from every book. */
  lemma RemoveAfterAdd(book: Book, b: BargeId, lat: int, lst: int, pt: int)
    requires DistinctBarges(book)
    ensures Remove(AddAppointment(book, b, lat, lst, pt), b) == Remove(book, b)
  {
    var i := InsertionPoint(book, lst);
    var a := NewAppointment(b, lat, lst, pt);
    if !Has(book, b) {
      PutsFresh(book, i, a);
      RemoveInserted(book, i, a);
    } else {
      var p := Position(book, b);
      if p < i {
        PutsReplaceBefore(book, i, p, a);
        RemoveReplaced(book, p, a);
      } else {
        PutsMoveAfter(book, i, p, a);
        RemoveMoved(book, i, p);
      }
    }
  }

  lemma RemoveInserted(book: Book, i: nat, a: Appointment)
    requires DistinctBarges(book) && i <= |book| && !Has(book, a.barge)
    ensures Remove(book[..i] + [a] + book[i..], a.barge) == book
  {
    var r := book[..i] + [a] + book[i..];
    InsertedBook(book, i, a);
    RemoveAt(r, i);
    CutInserted(book, i, a);
  }

  /** Cutting out the entry just inserted gives back the book. */
  lemma CutInserted(book: Book, i: nat, a: Appointment)
    requires i <= |book|
    ensures var r := book[..i] + [a] + book[i..];
            r[..i] + r[i + 1..] == book
  {
    var r := book[..i] + [a] + book[i..];
    assert r[..i] == book[..i];
    assert r[i + 1..] == book[i..];
    assert book[..i] + book[i..] == book;
  }

  lemma RemoveReplaced(book: Book, p: nat, a: Appointment)
    requires DistinctBarges(book) && p < |book| && book[p].barge == a.barge
    ensures Remove(book[p := a], a.barge) == Remove(book, a.barge)
  {
    var r := book[p := a];
    assert forall k | 0 <= k < |r| :: r[k].barge == book[k].barge;
    PositionUnique(r, a.barge, p);
    PositionUnique(book, a.barge, p);
    assert r[..p] == book[..p] && r[p + 1..] == book[p + 1..];
  }

  lemma RemoveMoved(book: Book, i: nat, p: nat)
    requires DistinctBarges(book) && i <= p < |book|
    ensures Remove(book[..i] + [book[p]] + book[i..p] + book[p + 1..], book[p].barge)
         == Remove(book, book[p].barge)
  {
    var r := book[..i] + [book[p]] + book[i..p] + book[p + 1..];
    MovedBook(book, i, p);
    RemoveAt(r, i);
    RemoveAt(book, p);
  }

  lemma RemoveAt(book: Book, p: nat)
    requires DistinctBarges(book) && p < |book|
    ensures Remove(book, book[p].barge) == book[..p] + book[p + 1..]
  {
    PositionUnique(book, book[p].barge, p);
  }
}
