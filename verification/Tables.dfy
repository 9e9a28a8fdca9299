/**
 Page tables as values: the contents of the hypervisor's pages, the walk the MMU makes through
 them, and the ownership discipline that makes the machine table and the shadow table two
 disjoint trees.
 */
module Tables {
  import opened Words
  import opened Image
  import opened PageTableEntry

  type Page = s: seq<Word> | |s| == ENTRIES witness seq(ENTRIES, _ => 0)
  /** The contents of the machine root (page 0) and of the pool. */
  type Mem = s: seq<Page> | |s| == PAGES witness seq<Page>(PAGES, _ => ZeroPage())

  datatype Tree = Machine | Shadow
  /** The entry that points to a table, or `Top` for the root of a tree. */
  datatype Slot = Top | In(page: nat, index: nat)
  datatype Node = Node(level: nat, tree: Tree, slot: Slot)
  /** Who owns each live page. A page absent from the map is not in use as a table. */
  type Ownership = map<nat, Node>

  function ZeroPage(): (p: Page)
    ensures forall i | 0 <= i < ENTRIES :: p[i] == 0
  {
    seq(ENTRIES, _ => 0)
  }

  predicate Zeroed(p: Page) {
    forall i | 0 <= i < ENTRIES :: p[i] == 0
  }

  // ---------------------------------------------------------------- reading and writing

  function Index(vpn: nat, level: nat): (i: nat)
    requires level <= 2
    ensures i < ENTRIES
  {
    if level == 2 then vpn / 0x40000 % ENTRIES
    else if level == 1 then vpn / ENTRIES % ENTRIES
    else vpn % ENTRIES
  }

  lemma FromIndices(v: nat)
    requires v < VPNS
    ensures v == Index(v, 2) * 0x40000 + Index(v, 1) * ENTRIES + Index(v, 0)
  {
  }

  lemma IndicesDetermine(v: nat, w: nat)
    requires v < VPNS && w < VPNS
    requires forall l | 0 <= l <= 2 :: Index(v, l) == Index(w, l)
    ensures v == w
  {
    assert Index(v, 0) == Index(w, 0) && Index(v, 1) == Index(w, 1) && Index(v, 2) == Index(w, 2);
    FromIndices(v);
    FromIndices(w);
  }

  function At(m: Mem, p: nat, i: nat): (e: Entry)
    requires p < PAGES && i < ENTRIES
  {
    Unpack(m[p][i])
  }

  function Put(m: Mem, p: nat, i: nat, w: Word): (m': Mem)
    requires p < PAGES && i < ENTRIES
  {
    m[p := m[p][i := w]]
  }

  predicate IsTable(e: Entry) {
    Has(e.perms, V) && !Leafy(e.perms)
  }

  // ---------------------------------------------------------------- walking

  /** A mapping found by a walk, and the level at which it was found. */
  datatype Leaf = Leaf(base: Word, level: nat, perms: Mask)

  /** The number of bytes a leaf at a given level maps. */
  function LeafBytes(level: nat): (n: nat)
    requires level <= 2
    ensures n > 0
  {
    if level == 2 then 0x4000_0000 else if level == 1 then 0x20_0000 else 0x1000
  }

  /** The walk of page number `vpn` from table `p`, which is a table of the given level. */
  function Walk(m: Mem, p: nat, level: nat, vpn: nat): (r: Option<Leaf>)
    requires p < PAGES && level <= 2
    ensures r.Some? ==> r.value.level <= level
    decreases level
  {
    var e := At(m, p, Index(vpn, level));
    if !Has(e.perms, V) then None
    else if Leafy(e.perms) then Some(Leaf(e.address, level, e.perms))
    else if level == 0 || PageOf(e.address).None? then None
    else Walk(m, PageOf(e.address).value, level - 1, vpn)
  }

  /** The walk reads entry `i` of page `q`. */
  ghost predicate Passes(m: Mem, p: nat, level: nat, vpn: nat, q: nat, i: nat)
    requires p < PAGES && level <= 2
    decreases level
  {
    var e := At(m, p, Index(vpn, level));
    || (p == q && Index(vpn, level) == i)
    || (IsTable(e) && level > 0 && PageOf(e.address).Some? && Passes(m, PageOf(e.address).value, level - 1, vpn, q, i))
  }

  // ---------------------------------------------------------------- ownership

  /** V, U and R, and perhaps W and X. */
  predicate ShadowPerms(perms: Mask) {
    perms == V + U + R || perms == V + U + R + W || perms == V + U + R + X || perms == V + U + R + W + X
  }

  predicate LeafOK(n: Node, i: nat, e: Entry) {
    match n.tree
    case Machine =>
      && n.level == 1 && n.slot.In? && n.slot.page == ROOT && n.slot.index >= 2
      && e.perms == V_U_RWX
      && e.address == n.slot.index * 0x4000_0000 + i * 0x20_0000 + GUEST_MEMORY_OFFSET
    case Shadow =>
      && n.level == 0
      && ShadowPerms(e.perms)
      && e.address >= GUEST_HOST_START && e.address % PAGE_BYTES == 0
  }

  predicate TableOK(own: Ownership, p: nat, i: nat, e: Entry)
    requires p in own
  {
    && e.perms == V
    && own[p].level > 0
    && (own[p].tree.Machine? ==> own[p].level == 2)
    && PageOf(e.address).Some?
    && var c := PageOf(e.address).value;
       c in own && own[c] == Node(own[p].level - 1, own[p].tree, In(p, i))
  }

  predicate EntryOK(m: Mem, own: Ownership, p: nat, i: nat)
    requires p in own && p < PAGES && i < ENTRIES
  {
    var e := At(m, p, i);
    if IsTable(e) then TableOK(own, p, i, e)
    else if Has(e.perms, V) then LeafOK(own[p], i, e)
    else m[p][i] == 0
  }

  predicate NodeOK(m: Mem, own: Ownership, c: nat)
    requires c in own
  {
    && c < PAGES && own[c].level <= 2
    && (own[c].slot.In? ==>
          var q, i := own[c].slot.page, own[c].slot.index;
          q in own && q < PAGES && i < ENTRIES && IsTable(At(m, q, i)) && PageOf(At(m, q, i).address) == Some(c))
  }

  /**
   The live pages form finite trees: every table entry points to a page of the next lower level
   that names this very entry as its owner, and every owned page is pointed to by its owner.
   */
  ghost predicate Forest(m: Mem, own: Ownership) {
    && (forall c | c in own :: NodeOK(m, own, c))
    && (forall p: nat, i: nat | p in own && i < ENTRIES :: p < PAGES && EntryOK(m, own, p, i))
  }

  /** Only the machine root and, if there is one, the shadow root are not pointed to by an entry. */
  ghost predicate RootsOK(own: Ownership, shadow: Option<nat>) {
    && ROOT in own && own[ROOT] == Node(2, Machine, Top)
    && (shadow.Some? ==> shadow.value in own && own[shadow.value] == Node(2, Shadow, Top))
    && (forall c | c in own && own[c].slot.Top? :: c == ROOT || shadow == Some(c))
  }

  /** Entry `i` of the live table `p` points to `c`. */
  predicate Points(m: Mem, own: Ownership, p: nat, i: nat, c: nat) {
    p in own && p < PAGES && i < ENTRIES && IsTable(At(m, p, i)) && PageOf(At(m, p, i).address) == Some(c)
  }

  lemma PointsIsSlot(m: Mem, own: Ownership, p: nat, i: nat, c: nat)
    requires Forest(m, own) && Points(m, own, p, i, c)
    ensures c in own && own[c].slot == In(p, i) && own[c].tree == own[p].tree && own[c].level + 1 == own[p].level
    ensures At(m, p, i).perms == V
  {
    assert EntryOK(m, own, p, i);
  }

  lemma SlotPoints(m: Mem, own: Ownership, c: nat)
    requires Forest(m, own) && c in own && own[c].slot.In?
    ensures Points(m, own, own[c].slot.page, own[c].slot.index, c)
  {
    assert NodeOK(m, own, c);
  }

  /**
   What the forest means: a live page is a root that nothing points to, or it is pointed to by
   exactly one entry, which is V-only, of a table of the same tree one level up.
   */
  lemma ForestMeansTrees(m: Mem, own: Ownership, shadow: Option<nat>, c: nat)
    requires Forest(m, own) && RootsOK(own, shadow) && c in own
    ensures (c == ROOT || shadow == Some(c)) <==> forall p, i :: !Points(m, own, p, i, c)
    ensures forall p, i, q, j | Points(m, own, p, i, c) && Points(m, own, q, j, c) :: p == q && i == j
    ensures forall p, i | Points(m, own, p, i, c) ::
              own[c].tree == own[p].tree && own[c].level + 1 == own[p].level && At(m, p, i).perms == V
  {
    forall p, i | Points(m, own, p, i, c)
      ensures own[c].slot == In(p, i)
      ensures own[c].tree == own[p].tree && own[c].level + 1 == own[p].level && At(m, p, i).perms == V
    {
      PointsIsSlot(m, own, p, i, c);
    }
    if own[c].slot.In? {
      SlotPoints(m, own, c);
    }
  }

  // ---------------------------------------------------------------- writes that keep the forest

  lemma PutElsewhere(m: Mem, p: nat, i: nat, w: Word, q: nat, j: nat)
    requires p < PAGES && i < ENTRIES && q < PAGES && j < ENTRIES
    ensures At(Put(m, p, i, w), q, j) == if q == p && j == i then Unpack(w) else At(m, q, j)
  {
  }

  lemma WriteLeaf(m: Mem, own: Ownership, p: nat, i: nat, w: Word)
    requires Forest(m, own) && p in own && p < PAGES && i < ENTRIES
    requires !IsTable(At(m, p, i))
    requires LeafOK(own[p], i, Unpack(w))
    ensures Forest(Put(m, p, i, w), own)
  {
    var m' := Put(m, p, i, w);
    forall q: nat, j: nat | q in own && j < ENTRIES ensures q < PAGES && EntryOK(m', own, q, j) {
      assert NodeOK(m, own, q) && EntryOK(m, own, q, j);
      PutElsewhere(m, p, i, w, q, j);
    }
    forall c | c in own ensures NodeOK(m', own, c) {
      assert NodeOK(m, own, c);
    }
  }

  /** Hang the zeroed page `c` below an empty entry. */
  lemma LinkTable(m: Mem, own: Ownership, p: nat, i: nat, c: nat)
    requires Forest(m, own) && p in own && p < PAGES && i < ENTRIES && c < PAGES && c !in own
    requires !Has(At(m, p, i).perms, V)
    requires Zeroed(m[c])
    requires own[p].level > 0 && (own[p].tree.Machine? ==> own[p].level == 2)
    ensures Forest(Put(m, p, i, Pack(Entry(PageAddress(c), V))),
                   own[c := Node(own[p].level - 1, own[p].tree, In(p, i))])
  {
    var e := Entry(PageAddress(c), V);
    var m' := Put(m, p, i, Pack(e));
    var own' := own[c := Node(own[p].level - 1, own[p].tree, In(p, i))];
    UnpackPack(e);
    assert NodeOK(m, own, p);
    forall q: nat, j: nat | q in own' && j < ENTRIES ensures q < PAGES && EntryOK(m', own', q, j) {
      if q != c {
        assert NodeOK(m, own, q) && EntryOK(m, own, q, j);
        PutElsewhere(m, p, i, Pack(e), q, j);
      }
    }
    forall d | d in own' ensures NodeOK(m', own', d) {
      if d != c {
        assert NodeOK(m, own, d);
      }
    }
  }

  /** Clear the entry that points to `c`: `c` becomes the root of a tree of its own. */
  lemma Detach(m: Mem, own: Ownership, p: nat, i: nat)
    requires Forest(m, own) && p in own && p < PAGES && i < ENTRIES
    requires IsTable(At(m, p, i))
    ensures PageOf(At(m, p, i).address).Some?
    ensures var c := PageOf(At(m, p, i).address).value;
            && c in own && own[c].level == own[p].level - 1 && own[c].tree == own[p].tree
            && (own[p].tree.Shadow? ==> Forest(Put(m, p, i, 0), own[c := own[c].(slot := Top)]))
  {
    assert EntryOK(m, own, p, i);
    var c := PageOf(At(m, p, i).address).value;
    var m' := Put(m, p, i, 0);
    var own' := own[c := own[c].(slot := Top)];
    if own[p].tree.Shadow? {
      forall q: nat, j: nat | q in own' && j < ENTRIES ensures q < PAGES && EntryOK(m', own', q, j) {
        assert NodeOK(m, own, q) && EntryOK(m, own, q, j);
        PutElsewhere(m, p, i, 0, q, j);
      }
      forall d | d in own' ensures NodeOK(m', own', d) {
        assert NodeOK(m, own, d);
      }
    }
  }

  /** Clear an entry that points to nothing. */
  lemma ClearLeaf(m: Mem, own: Ownership, p: nat, i: nat)
    requires Forest(m, own) && p in own && p < PAGES && i < ENTRIES
    requires !IsTable(At(m, p, i))
    ensures Forest(Put(m, p, i, 0), own)
  {
    var m' := Put(m, p, i, 0);
    forall q: nat, j: nat | q in own && j < ENTRIES ensures q < PAGES && EntryOK(m', own, q, j) {
      assert NodeOK(m, own, q) && EntryOK(m, own, q, j);
      PutElsewhere(m, p, i, 0, q, j);
    }
    forall d | d in own ensures NodeOK(m', own, d) {
      assert NodeOK(m, own, d);
    }
  }

  /** Give up an empty table that nothing points to; its page may then be overwritten. */
  lemma RemoveRoot(m: Mem, own: Ownership, c: nat, page: Page)
    requires Forest(m, own) && c in own && c < PAGES
    requires own[c].slot.Top? && Zeroed(m[c])
    ensures Forest(m[c := page], own - {c})
  {
    var m' := m[c := page];
    var own' := own - {c};
    forall q: nat, j: nat | q in own' && j < ENTRIES ensures q < PAGES && EntryOK(m', own', q, j) {
      EntryWithoutRoot(m, own, c, page, q, j);
    }
    forall d | d in own' ensures NodeOK(m', own', d) {
      assert NodeOK(m, own, d);
      NodeWithoutRoot(m, own, c, page, d);
    }
  }

  lemma EntryWithoutRoot(m: Mem, own: Ownership, c: nat, page: Page, q: nat, j: nat)
    requires Forest(m, own) && c in own && c < PAGES && own[c].slot.Top? && q in own && q != c && j < ENTRIES
    ensures q < PAGES && EntryOK(m[c := page], own - {c}, q, j)
  {
    assert NodeOK(m, own, q) && EntryOK(m, own, q, j);
  }

  lemma NodeWithoutRoot(m: Mem, own: Ownership, c: nat, page: Page, d: nat)
    requires Forest(m, own) && c in own && c < PAGES && Zeroed(m[c]) && d in own && d != c
    ensures NodeOK(m[c := page], own - {c}, d)
  {
    assert NodeOK(m, own, d);
  }

  /** Pages that are not in use may hold anything. */
  lemma UnusedPage(m: Mem, own: Ownership, c: nat, page: Page)
    requires Forest(m, own) && c !in own && c < PAGES
    ensures Forest(m[c := page], own)
  {
    var m' := m[c := page];
    forall q: nat, j: nat | q in own && j < ENTRIES ensures q < PAGES && EntryOK(m', own, q, j) {
      assert NodeOK(m, own, q) && EntryOK(m, own, q, j);
    }
    forall d | d in own ensures NodeOK(m', own, d) {
      assert NodeOK(m, own, d);
    }
  }

  /** A zeroed page becomes the root of a new tree. */
  lemma NewRoot(m: Mem, own: Ownership, c: nat)
    requires Forest(m, own) && c !in own && c < PAGES && Zeroed(m[c])
    ensures Forest(m, own[c := Node(2, Shadow, Top)])
  {
    var own' := own[c := Node(2, Shadow, Top)];
    forall q: nat, j: nat | q in own' && j < ENTRIES ensures q < PAGES && EntryOK(m, own', q, j) {
      if q != c {
        assert NodeOK(m, own, q) && EntryOK(m, own, q, j);
      }
    }
    forall d | d in own' ensures NodeOK(m, own', d) {
      if d != c {
        assert NodeOK(m, own, d);
      }
    }
  }

  /** In a forest whose only shadow root is empty, that root is the whole shadow tree. */
  lemma EmptyRootIsAlone(m: Mem, own: Ownership, root: nat, c: nat)
    requires Forest(m, own) && RootsOK(own, Some(root)) && root < PAGES && Zeroed(m[root])
    requires c in own && own[c].tree.Shadow?
    ensures c == root
    decreases if c in own then 2 - own[c].level else 0
  {
    assert NodeOK(m, own, c);
    if own[c].slot.In? {
      var p, i := own[c].slot.page, own[c].slot.index;
      assert EntryOK(m, own, p, i);
      assert NodeOK(m, own, p);
      EmptyRootIsAlone(m, own, root, p);
    }
  }

  // ---------------------------------------------------------------- what writes do to walks

  /** A walk that does not read the written entry is unchanged. */
  lemma {:induction false} WalkUnaffected(m: Mem, p: nat, level: nat, vpn: nat, q: nat, i: nat, w: Word)
    requires p < PAGES && level <= 2 && q < PAGES && i < ENTRIES
    requires !Passes(m, p, level, vpn, q, i)
    ensures Walk(Put(m, q, i, w), p, level, vpn) == Walk(m, p, level, vpn)
    decreases level
  {
    var j := Index(vpn, level);
    PutElsewhere(m, q, i, w, p, j);
    var e := At(m, p, j);
    if IsTable(e) && level > 0 && PageOf(e.address).Some? {
      WalkUnaffected(m, PageOf(e.address).value, level - 1, vpn, q, i, w);
    }
  }

  /** A walk only depends on the pages of its own tree. */
  lemma {:induction false} WalkInTree(m: Mem, m': Mem, own: Ownership, p: nat, vpn: nat)
    requires Forest(m, own) && p in own && p < PAGES && own[p].level <= 2
    requires forall q | q in own && own[q].tree == own[p].tree && q < PAGES :: m'[q] == m[q]
    ensures Walk(m', p, own[p].level, vpn) == Walk(m, p, own[p].level, vpn)
    decreases own[p].level
  {
    var j := Index(vpn, own[p].level);
    assert EntryOK(m, own, p, j);
    var e := At(m, p, j);
    if IsTable(e) {
      assert NodeOK(m, own, PageOf(e.address).value);
      WalkInTree(m, m', own, PageOf(e.address).value, vpn);
    }
  }

  lemma WalkInForest(m: Mem, m': Mem, own: Ownership, p: nat, vpn: nat)
    requires Forest(m, own) && p in own && p < PAGES && own[p].level <= 2
    requires forall q | q in own && q < PAGES :: m'[q] == m[q]
    ensures Walk(m', p, own[p].level, vpn) == Walk(m, p, own[p].level, vpn)
  {
    WalkInTree(m, m', own, p, vpn);
  }

  /** Hanging a zeroed page below an empty entry maps nothing. */
  lemma {:induction false} LinkMapsNothing(m: Mem, own: Ownership, p: nat, i: nat, c: nat, q: nat, vpn: nat)
    requires Forest(m, own) && p in own && p < PAGES && i < ENTRIES && c < PAGES && c !in own
    requires !Has(At(m, p, i).perms, V) && Zeroed(m[c])
    requires q in own && q < PAGES && own[q].level <= 2
    ensures var m' := Put(m, p, i, Pack(Entry(PageAddress(c), V)));
            Walk(m', q, own[q].level, vpn) == Walk(m, q, own[q].level, vpn)
    decreases own[q].level
  {
    var w := Pack(Entry(PageAddress(c), V));
    var m' := Put(m, p, i, w);
    var j := Index(vpn, own[q].level);
    PutElsewhere(m, p, i, w, q, j);
    UnpackPack(Entry(PageAddress(c), V));
    assert EntryOK(m, own, q, j);
    if q == p && j == i {
      if own[q].level > 0 {
        assert At(m', c, Index(vpn, own[q].level - 1)) == Entry(0, 0);
      }
    } else if IsTable(At(m, q, j)) {
      var d := PageOf(At(m, q, j).address).value;
      assert NodeOK(m, own, d);
      LinkMapsNothing(m, own, p, i, c, d, vpn);
    }
  }

  /** A walk that reads an entry reaches it through the entries that own its page. */
  lemma {:induction false} PassesPath(m: Mem, own: Ownership, q: nat, vpn: nat, p: nat, i: nat)
    requires Forest(m, own) && q in own && q < PAGES && own[q].level <= 2
    requires Passes(m, q, own[q].level, vpn, p, i)
    ensures p in own && p < PAGES && own[p].level <= own[q].level
    ensures i == Index(vpn, own[p].level)
    ensures p != q ==>
              && own[p].slot.In? && own[p].slot.page < PAGES
              && own[p].slot.page in own && own[own[p].slot.page].level == own[p].level + 1
              && Passes(m, q, own[q].level, vpn, own[p].slot.page, own[p].slot.index)
    decreases own[q].level
  {
    var j := Index(vpn, own[q].level);
    var e := At(m, q, j);
    assert EntryOK(m, own, q, j);
    if !(p == q && i == j) {
      var c := PageOf(e.address).value;
      assert NodeOK(m, own, c);
      PassesPath(m, own, c, vpn, p, i);
      assert Passes(m, c, own[c].level, vpn, p, i);
    }
  }

  /** Two page numbers whose walks from a root read the same third-level entry are equal. */
  lemma SameEntrySamePage(m: Mem, own: Ownership, root: nat, v: nat, w: nat, p: nat, i: nat)
    requires Forest(m, own) && root in own && root < PAGES && own[root].level == 2
    requires p in own && own[p].level == 0 && v < VPNS && w < VPNS
    requires Passes(m, root, 2, v, p, i) && Passes(m, root, 2, w, p, i)
    ensures v == w
  {
    PassesPath(m, own, root, v, p, i);
    PassesPath(m, own, root, w, p, i);
    var p1, i1 := own[p].slot.page, own[p].slot.index;
    PassesPath(m, own, root, v, p1, i1);
    PassesPath(m, own, root, w, p1, i1);
    var p2, i2 := own[p1].slot.page, own[p1].slot.index;
    PassesPath(m, own, root, v, p2, i2);
    PassesPath(m, own, root, w, p2, i2);
    IndicesDetermine(v, w);
  }

  // ---------------------------------------------------------------- the path to a table

  /** Table `p` of the given level is the one that the walk of `vpn` from `root` goes through. */
  ghost predicate OnPath(own: Ownership, root: nat, vpn: nat, level: nat, p: nat)
    requires level <= 2
    decreases 2 - level
  {
    && p in own && own[p].level == level
    && if level == 2 then p == root
       else
         && own[p].slot.In? && own[p].slot.index == Index(vpn, level + 1)
         && OnPath(own, root, vpn, level + 1, own[p].slot.page)
  }

  lemma {:induction false} OnPathExtends(own: Ownership, own': Ownership, root: nat, vpn: nat, level: nat, p: nat)
    requires level <= 2 && OnPath(own, root, vpn, level, p)
    requires forall q | q in own :: q in own' && own'[q] == own[q]
    ensures OnPath(own', root, vpn, level, p)
    decreases 2 - level
  {
    if level < 2 {
      OnPathExtends(own, own', root, vpn, level + 1, own[p].slot.page);
    }
  }

  /** From a table on its path, a walk goes on as it does from the root. */
  lemma {:induction false} WalkFromPath(m: Mem, own: Ownership, root: nat, vpn: nat, level: nat, p: nat, q: nat, i: nat)
    requires Forest(m, own) && level <= 2 && OnPath(own, root, vpn, level, p) && root < PAGES && p < PAGES
    ensures Walk(m, root, 2, vpn) == Walk(m, p, level, vpn)
    ensures Passes(m, p, level, vpn, q, i) ==> Passes(m, root, 2, vpn, q, i)
    decreases 2 - level
  {
    if level < 2 {
      assert NodeOK(m, own, p);
      WalkFromPath(m, own, root, vpn, level + 1, own[p].slot.page, q, i);
    }
  }

  /** Writing the third-level entry of a page changes the walk of that page and no other. */
  lemma PointUpdate(m: Mem, own: Ownership, root: nat, vpn: nat, p: nat, w: Word, v: nat)
    requires Forest(m, own) && root < PAGES && p < PAGES && OnPath(own, root, vpn, 0, p)
    requires Forest(Put(m, p, Index(vpn, 0), w), own)
    requires Has(Unpack(w).perms, V) && Leafy(Unpack(w).perms) && vpn < VPNS && v < VPNS
    ensures Walk(Put(m, p, Index(vpn, 0), w), root, 2, v)
            == if v == vpn then Some(Leaf(Unpack(w).address, 0, Unpack(w).perms)) else Walk(m, root, 2, v)
  {
    var i := Index(vpn, 0);
    if v == vpn {
      WalkFromPath(Put(m, p, i, w), own, root, vpn, 0, p, p, i);
      PutElsewhere(m, p, i, w, p, i);
    } else {
      WalkFromPath(m, own, root, vpn, 0, p, p, i);
      OnPathRoot(own, root, vpn, 0, p);
      if Passes(m, root, 2, v, p, i) {
        SameEntrySamePage(m, own, root, v, vpn, p, i);
      }
      WalkUnaffected(m, root, 2, v, p, i, w);
    }
  }

  lemma {:induction false} OnPathRoot(own: Ownership, root: nat, vpn: nat, level: nat, p: nat)
    requires level <= 2 && OnPath(own, root, vpn, level, p)
    ensures root in own && own[root].level == 2
    decreases 2 - level
  {
    if level < 2 {
      OnPathRoot(own, root, vpn, level + 1, own[p].slot.page);
    }
  }
}
