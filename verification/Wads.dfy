/** Pages that come and go, and the eight-page wads that are mapped for them. */
module Wads {
  import opened TaggedMemory
  import opened Ivory
  import opened PageFaults

  const WAD := 65536
  const WADS := 0x1_0000

  /** Page attributes, memory contents, and the wads that the host has mapped. */
  datatype Space = Space(attrs: seq<Attributes>, memory: seq<Word>, mapped: set<nat>) {
    predicate Sized() { |attrs| == PAGES && |memory| == MEMORY }

    predicate Created(p: nat)
      requires Sized() && p < PAGES
    {
      attrs[p].exists_
    }

    /** Some page of the wad exists. */
    predicate WadCreated(w: nat)
      requires Sized() && w < WADS
    {
      || Created(8 * w) || Created(8 * w + 1) || Created(8 * w + 2) || Created(8 * w + 3)
      || Created(8 * w + 4) || Created(8 * w + 5) || Created(8 * w + 6) || Created(8 * w + 7)
    }

    /** Exactly the wads with a page that exists are mapped. */
    ghost predicate Valid() { Sized() && forall w: nat | w < WADS :: w in mapped <==> WadCreated(w) }
  }

  /** The attributes of a new page. Only pages of a world count as unmodified, and only when modifications are
      tracked. */
  function DefaultAttributes(faultp: bool, worldp: bool, tracking: bool): Attributes {
    ABSENT.(exists_ := true, ephemeral := true, accessFault := faultp, modified := !(tracking && worldp))
  }

  /** A new page exists, may hold ephemeral pointers, and counts as modified unless it is a world's and modifications
      are tracked. It can be accessed, and then is touched by a write, unless accesses to it are to fault. */
  lemma NewPageExactly(faultp: bool, worldp: bool, tracking: bool)
    ensures var a := DefaultAttributes(faultp, worldp, tracking);
      && AttributeByte(a) == 64 | 16 | (if faultp then 1 else 0) | (if tracking && worldp then 0 else 32)
      && Attempt(a, Reading) == (if faultp then LispFault else Goes(a))
      && Attempt(a, Writing) == if faultp then LispFault else Goes(a.(modified := true))
  {
    AccessExactly(DefaultAttributes(faultp, worldp, tracking), Reading);
    AccessExactly(DefaultAttributes(faultp, worldp, tracking), Writing);
  }

  /** A newly mapped wad: null words that point into the boundary zone. */
  function Blank(memory: seq<Word>, w: nat): (r: seq<Word>)
    requires |memory| == MEMORY
    ensures |r| == MEMORY
  {
    seq(MEMORY, a requires 0 <= a < MEMORY => if w * WAD <= a < (w + 1) * WAD then Word(0, 0xFFFF_FFFF) else memory[a])
  }

  /** Makes page `p` exist. */
  function Ensure(s: Space, p: nat, faultp: bool, tracking: bool): (r: Space)
    requires s.Sized() && p < PAGES
    ensures r.Sized()
  {
    var a := DefaultAttributes(faultp, false, tracking);
    if s.Created(p) then s.(attrs := s.attrs[p := s.attrs[p].(modified := true)])
    else if s.WadCreated(p / 8) then s.(attrs := s.attrs[p := a])
    else Space(s.attrs[p := a], Blank(s.memory, p / 8), s.mapped + {p / 8})
  }

  /** Making a page leaves all others; a page that was there becomes modified, and a new one is as new pages are. */
  lemma EnsureExactly(s: Space, p: nat, faultp: bool, tracking: bool)
    requires s.Sized() && p < PAGES
    ensures var a := Ensure(s, p, faultp, tracking).attrs;
      && (forall q: nat | q < PAGES && q != p :: a[q] == s.attrs[q])
      && (if s.Created(p) then a[p] == s.attrs[p].(modified := true)
          else AttributeByte(a[p]) == 64 | 32 | 16 | if faultp then 1 else 0)
  {
    NewPageExactly(faultp, false, tracking);
  }

  /** Makes page `p` cease to exist; a wad goes with its last page. */
  function Destroy(s: Space, p: nat): (r: Space)
    requires s.Sized() && p < PAGES
    ensures r.Sized()
  {
    var t := if s.Created(p) then s.(attrs := s.attrs[p := ABSENT]) else s;
    if t.WadCreated(p / 8) then t else t.(mapped := t.mapped - {p / 8})
  }

  /** The page after a page; addresses wrap at the end of memory. */
  function FollowingPage(p: nat): (q: nat)
    requires p < PAGES
    ensures q < PAGES
  {
    if p == LAST_PAGE then 0 else p + 1
  }

  /** Destroys the existing ones among `n` pages from `p` on, counting their words. */
  function DestroyRange(s: Space, p: nat, n: nat): (r: (Space, nat))
    requires s.Sized() && p < PAGES
    ensures r.0.Sized()
    decreases n
  {
    if n == 0 then (s, 0)
    else if s.Created(p) then
      var (t, rest) := DestroyRange(Destroy(s, p), FollowingPage(p), n - 1);
      (t, 8192 + rest)
    else DestroyRange(s, FollowingPage(p), n - 1)
  }

  // ---------- One wad at a time ----------

  /** The attributes of pages outside a wad do not matter to it. */
  lemma OtherWad(s: Space, t: Space, p: nat, w: nat)
    requires s.Sized() && t.Sized() && p < PAGES && w < WADS && p / 8 != w
    requires forall q: nat | q < PAGES && q != p :: t.attrs[q] == s.attrs[q]
    ensures t.WadCreated(w) == s.WadCreated(w)
  {
  }

  lemma OwnWad(s: Space, p: nat)
    requires s.Sized() && p < PAGES && s.Created(p)
    ensures p / 8 < WADS && s.WadCreated(p / 8)
  {
    assert p == 8 * (p / 8) + p % 8;
  }

  /** A change to one page is a change to its own wad only. */
  lemma {:induction false} ChangeKeepsWads(s: Space, t: Space, p: nat)
    requires s.Valid() && t.Sized() && p < PAGES && p / 8 < WADS
    requires forall q: nat | q < PAGES && q != p :: t.attrs[q] == s.attrs[q]
    requires p / 8 in t.mapped <==> t.WadCreated(p / 8)
    requires forall w: nat | w != p / 8 :: w in t.mapped <==> w in s.mapped
    ensures t.Valid()
  {
    forall w: nat | w < WADS ensures w in t.mapped <==> t.WadCreated(w) {
      if w != p / 8 { OtherWad(s, t, p, w); }
    }
  }

  /** Creating a page keeps the wad invariant: a wad is mapped exactly when one of its pages exists. */
  lemma {:induction false} EnsureKeepsWads(s: Space, p: nat, faultp: bool, tracking: bool)
    requires s.Valid() && p < PAGES
    ensures Ensure(s, p, faultp, tracking).Valid() && Ensure(s, p, faultp, tracking).Created(p)
  {
    hide Blank, Space.WadCreated;
    var t := Ensure(s, p, faultp, tracking);
    OwnWad(t, p);
    if s.Created(p) { OwnWad(s, p); }
    ChangeKeepsWads(s, t, p);
  }

  lemma {:induction false} DestroyKeepsWads(s: Space, p: nat)
    requires s.Valid() && p < PAGES
    ensures Destroy(s, p).Valid() && !Destroy(s, p).Created(p)
  {
    var t := Destroy(s, p);
    if s.Created(p) { OwnWad(s, p); }
    ChangeKeepsWads(s, t, p);
  }

  /** Another page that exists stays, with its words. */
  ghost predicate PageKept(s: Space, t: Space, q: nat)
    requires s.Sized() && t.Sized() && q < PAGES
  {
    t.Created(q) && forall a | q * 8192 <= a < (q + 1) * 8192 :: t.memory[a] == s.memory[a]
  }

  lemma {:induction false} EnsureKeepsPage(s: Space, p: nat, faultp: bool, tracking: bool, q: nat)
    requires s.Sized() && p < PAGES && q < PAGES && s.Created(q)
    ensures PageKept(s, Ensure(s, p, faultp, tracking), q)
  {
    if !s.Created(p) && !s.WadCreated(p / 8) {
      OwnWad(s, q);
      forall a | q * 8192 <= a < (q + 1) * 8192 ensures Blank(s.memory, p / 8)[a] == s.memory[a] {
        OutsideWad(q, p / 8, a);
      }
    }
  }

  lemma OutsideWad(q: nat, w: nat, a: nat)
    requires q / 8 != w && q * 8192 <= a < (q + 1) * 8192
    ensures !(w * 65536 <= a < (w + 1) * 65536)
  {
    assert q == 8 * (q / 8) + q % 8;
  }

  // ---------- Runs ----------

  datatype Change = Create(page: nat, faultp: bool) | Remove(page: nat)

  function Apply(s: Space, tracking: bool, c: Change): (r: Space)
    requires s.Sized() && c.page < PAGES
    ensures r.Sized()
  {
    if c.Create? then Ensure(s, c.page, c.faultp, tracking) else Destroy(s, c.page)
  }

  function Run(s: Space, tracking: bool, changes: seq<Change>): (r: Space)
    requires s.Sized() && forall c :: c in changes ==> c.page < PAGES
    ensures r.Sized()
    decreases |changes|
  {
    if changes == [] then s
    else assert changes[0] in changes; Run(Apply(s, tracking, changes[0]), tracking, changes[1..])
  }

  /** Over every run of creations and removals, exactly the wads with a page that exists are mapped. */
  lemma {:induction false} RunKeepsWads(s: Space, tracking: bool, changes: seq<Change>)
    requires s.Valid() && forall c :: c in changes ==> c.page < PAGES
    ensures Run(s, tracking, changes).Valid()
    decreases |changes|
  {
    if changes != [] {
      var c := changes[0];
      assert c in changes;
      if c.Create? { EnsureKeepsWads(s, c.page, c.faultp, tracking); } else { DestroyKeepsWads(s, c.page); }
      RunKeepsWads(Apply(s, tracking, c), tracking, changes[1..]);
    }
  }

  /** Over every run that does not remove it, a page that exists keeps its words, whatever becomes of its neighbours. */
  lemma {:induction false} RunKeepsPage(s: Space, tracking: bool, changes: seq<Change>, q: nat)
    requires s.Sized() && q < PAGES && s.Created(q) && forall c :: c in changes ==> c.page < PAGES
    requires forall c :: c in changes && c.Remove? ==> c.page != q
    ensures PageKept(s, Run(s, tracking, changes), q)
    decreases |changes|
  {
    if changes != [] {
      var c := changes[0];
      assert c in changes;
      if c.Create? { EnsureKeepsPage(s, c.page, c.faultp, tracking, q); }
      RunKeepsPage(Apply(s, tracking, c), tracking, changes[1..], q);
    }
  }

  // ---------- Destroying a range ----------

  /** The existing ones among `n` pages from `p` on. */
  function Existing(s: Space, p: nat, n: nat): nat
    requires s.Sized() && p < PAGES
    decreases n
  {
    if n == 0 then 0 else (if s.Created(p) then 1 else 0) + Existing(s, FollowingPage(p), n - 1)
  }

  /** Page `q` is one of the `n` pages from `p` on. */
  predicate InRun(p: nat, n: nat, q: nat) { p <= q < p + n || q + PAGES < p + n }

  lemma {:induction false} ExistingFrame(s: Space, t: Space, p: nat, n: nat)
    requires s.Sized() && t.Sized() && p < PAGES && n <= PAGES
    requires forall q: nat | q < PAGES && InRun(p, n, q) :: s.attrs[q] == t.attrs[q]
    ensures Existing(s, p, n) == Existing(t, p, n)
    decreases n
  {
    if n > 0 { ExistingFrame(s, t, FollowingPage(p), n - 1); }
  }

  /** Destroying a range removes its pages and no others, returns the page size for each page that existed, changes no
      words, and keeps the wad invariant. */
  lemma {:induction false} DestroyRangeExactly(s: Space, p: nat, n: nat)
    requires s.Sized() && s.Valid() && p < PAGES && n <= PAGES
    ensures var (t, words) := DestroyRange(s, p, n);
      && words == 8192 * Existing(s, p, n) && t.Valid() && t.memory == s.memory
      && (forall q: nat | q < PAGES :: t.attrs[q].exists_ == (s.attrs[q].exists_ && !InRun(p, n, q)))
      && (forall q: nat | q < PAGES && !InRun(p, n, q) :: t.attrs[q] == s.attrs[q])
    decreases n
  {
    hide Destroy, Space.WadCreated, Space.Valid;
    if n > 0 {
      if s.Created(p) {
        DestroyKeepsWads(s, p);
        DestroysPage(s, p);
        ExistingFrame(s, Destroy(s, p), FollowingPage(p), n - 1);
        DestroyRangeExactly(Destroy(s, p), FollowingPage(p), n - 1);
      } else {
        DestroyRangeExactly(s, FollowingPage(p), n - 1);
      }
    }
  }

  /** How many pages a range of words is taken for, in 32 bits. */
  function RangePages(vma: nat, count: nat): nat { (count + vma % 8192 + 8191) % 0x1_0000_0000 / 8192 }

  /** Page `q` has a word of the `count` from `vma` on. */
  predicate Meets(vma: nat, count: nat, q: nat) {
    count > 0 && ((vma < 8192 * q + 8192 && 8192 * q < vma + count) || 8192 * q + MEMORY < vma + count)
  }

  /** The pages destroyed for a range are those it meets, around the end of memory as well, if and only if the rounding
      up does not overflow, and the range is not an empty one inside a page, for which that page goes. */
  lemma RangeExactly(vma: nat, count: nat)
    requires vma < MEMORY && count < MEMORY
    ensures (forall q: nat | q < PAGES :: InRun(vma / 8192, RangePages(vma, count), q) <==> Meets(vma, count, q)) <==>
      count + vma % 8192 + 8191 < MEMORY && (count > 0 || vma % 8192 == 0)
  {
    var p, offset, n := vma / 8192, vma % 8192, RangePages(vma, count);
    if count + offset + 8191 >= MEMORY {
      assert n <= 1;
      assert Meets(vma, count, FollowingPage(p)) && !InRun(p, n, FollowingPage(p));
    } else if count == 0 && offset > 0 {
      assert InRun(p, n, p) && !Meets(vma, count, p);
    } else {
      assert 8192 * n < count + offset + 8192 && count + offset <= 8192 * n;
    }
  }

  lemma DestroysPage(s: Space, p: nat)
    requires s.Sized() && p < PAGES && s.Created(p)
    ensures Destroy(s, p).attrs == s.attrs[p := ABSENT] && Destroy(s, p).memory == s.memory
  {
  }
}
