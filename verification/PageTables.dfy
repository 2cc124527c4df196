/** Virtual page tables: the invariant of the paging structures and set_virtual_entry. */
module PageTables {
  import opened Machine
  import opened FrameAllocator
  import opened FrameSearch

  /** The first heap page; identity-mapped pages lie below it. */
  const HEAP: PageNo := 0x10000

  /** The paging state as a value. */
  datatype Paging = Paging(mem: Ram, ld: PageNo, vd: PageNo, T: nat, roles: seq<Role>)

  /** The word that translates virtual page v; 0 when its table does not exist. */
  function VirtualEntry(p: Paging, v: PageNo): Word {
    var d := Cell(p.mem, p.vd, Dir(v));
    if d == 0 then 0 else Cell(p.mem, Frame(d), Tab(v))
  }

  function Lin(p: Paging, g: PageNo): Word {
    LinearEntry(p.mem, p.ld, g)
  }

  /** Directories and tables are where the directories say, each in a frame of its own, and the
      available frames (other than frame 0) are unused. */
  ghost predicate Rooted(p: Paging) {
    && 1 <= p.T && |p.roles| == 0x100000
    && TablesPresent(p.mem, p.ld, p.T)
    && p.roles[p.ld] == LinDir
    && p.roles[p.vd] == VirDir
    && (forall s: Slot :: s < p.T ==> p.roles[Frame(Cell(p.mem, p.ld, s))] == LinTab(s))
    && (forall s: Slot :: var d := Cell(p.mem, p.vd, s);
          d != 0 ==> d == Entry(Frame(d), MAPPED) && p.roles[Frame(d)] == VirTab(s))
    && (forall g: PageNo :: g >= 1 && Available(p.mem, p.ld, g) ==> p.roles[g] == Free)
    && (forall g: PageNo :: p.roles[g].LinTab? || p.roles[g].VirTab? || p.roles[g].Data? ==> 1 <= g && InTables(g, p.T))
  }

  /** What a page-table entry may hold. Below the heap: nothing, the page itself, or a frame of an image. In
      the heap: nothing, a page awaiting its first touch, or a frame of its contents. Only one page uses such
      a frame, and the linear entry of a mapped frame names the page that maps it. */
  ghost predicate GoodEntry(p: Paging, v: PageNo)
    requires |p.roles| == 0x100000
  {
    var w := VirtualEntry(p, v);
    if v < HEAP then
      w == 0 ||
      (w == Entry(v, MAPPED) && InTables(v, p.T) && (v >= 1 ==> Lin(p, v) == Entry(v, LINEAR_ALLOCATED))
       && p.roles[v] != Free && !p.roles[v].Data?)
      || Holds(p, v, IMAGE)
    else
      w == 0 || w == ASSIGNED || w == ASSIGNED_ZERO || Holds(p, v, MAPPED)
  }

  /** Page v is mapped, with the given flags, to a frame of its own. */
  ghost predicate Holds(p: Paging, v: PageNo, flags: nat)
    requires |p.roles| == 0x100000 && flags < 4096
  {
    var l := Frame(VirtualEntry(p, v));
    && VirtualEntry(p, v) == Entry(l, flags) && 1 <= l && InTables(l, p.T)
    && Lin(p, l) == Entry(v, LINEAR_ALLOCATED) && p.roles[l] == Data(v)
  }

  lemma MappedNonzero(g: PageNo)
    ensures Entry(g, MAPPED) != 0
  {
  }

  /** The paging invariant, but for pages of the tables in `dirty`, which are not cleared yet,
      and the pages in `hole`, whose linear entry is still to be written. */
  ghost predicate Layout(p: Paging, dirty: set<Slot>, hole: set<PageNo>) {
    && Rooted(p)
    && forall v: PageNo {:trigger GoodEntry(p, v)} :: Dir(v) !in dirty && v !in hole ==> GoodEntry(p, v)
  }

  /** Frame f has become a page table. */
  ghost predicate NewTable(p: Paging, q: Paging, f: PageNo)
    requires |p.roles| == |q.roles| == 0x100000
  {
    p.roles[f] == Free && q.roles[f].VirTab?
  }

  /** A frame whose words the page-table code never writes. */
  predicate Inert(r: Role) {
    r.Free? || r.Reserved? || r.LinDir? || r.Data?
  }

  /** From p to q: the table for page v exists. Tables that existed keep their entries, except at
      v and at the identity pages of the tables that have been created; so do linear entries,
      except those of the created tables; and only tables have been written. */
  ghost predicate Grown(p: Paging, q: Paging, v: PageNo, dirty: set<Slot>)
    requires |p.roles| == 0x100000
  {
    && q.ld == p.ld && q.vd == p.vd && q.T == p.T && |q.roles| == 0x100000
    && Cell(q.mem, q.vd, Dir(v)) != 0
    && (forall s: Slot {:trigger Cell(q.mem, q.vd, s)} :: Cell(p.mem, p.vd, s) != 0 || (s >= 64 && s != Dir(v)) ==>
          Cell(q.mem, q.vd, s) == Cell(p.mem, p.vd, s))
    && (forall u: PageNo {:trigger VirtualEntry(q, u)} :: Dir(u) !in dirty && u != v ==>
          || VirtualEntry(q, u) == VirtualEntry(p, u)
          || (NewTable(p, q, u) && VirtualEntry(q, u) == Entry(u, MAPPED)))
    && (forall g: PageNo {:trigger Lin(q, g)} :: InTables(g, p.T) ==>
          || Lin(q, g) == Lin(p, g)
          || (NewTable(p, q, g) && Lin(q, g) == Entry(g, LINEAR_ALLOCATED)))
    && (forall f: PageNo {:trigger q.roles[f]} :: q.roles[f] == p.roles[f] || NewTable(p, q, f))
    && (forall f: PageNo, i: Slot {:trigger Cell(q.mem, f, i)} ::
          Inert(q.roles[f]) ==> Cell(q.mem, f, i) == Cell(p.mem, f, i))
  }

  /** From p to q: word w has been installed at page v, and nothing else but new tables. */
  ghost predicate Installed(p: Paging, q: Paging, v: PageNo, w: Word, dirty: set<Slot>)
    requires |p.roles| == 0x100000
  {
    Grown(p, q, v, dirty) && VirtualEntry(q, v) == w
  }

  lemma RootedLinear(p: Paging)
    requires Rooted(p)
    ensures LinearOk(p.mem, p.ld, p.T)
  {
  }

  lemma RootedRoles(p: Paging)
    requires Rooted(p)
    ensures |p.roles| == 0x100000 && 1 <= p.T <= 64
  {
  }

  // ------------------------------------------------------- the four kinds of store

  function WriteLinear(p: Paging, g: PageNo, w: Word): Paging {
    p.(mem := PokeLinear(p.mem, p.ld, g, w))
  }

  /** Only a linear table is written. */
  lemma WriteLinearCells(p: Paging, g: PageNo, w: Word)
    requires Rooted(p) && InTables(g, p.T)
    ensures |p.roles| == 0x100000
    ensures var q := WriteLinear(p, g, w);
            forall f: PageNo, i: Slot {:trigger Cell(q.mem, f, i)} ::
              !p.roles[f].LinTab? ==> Cell(q.mem, f, i) == Cell(p.mem, f, i)
  {
    assert Dir(g) < p.T;
  }

  /** Stores to linear tables leave the directories alone, ... */
  lemma DirectoriesKept(p: Paging, q: Paging)
    requires Rooted(p) && q == p.(mem := q.mem)
    requires forall f: PageNo, i: Slot {:trigger Cell(q.mem, f, i)} ::
               !p.roles[f].LinTab? ==> Cell(q.mem, f, i) == Cell(p.mem, f, i)
    ensures forall s: Slot {:trigger Cell(q.mem, q.vd, s)} :: Cell(q.mem, q.vd, s) == Cell(p.mem, p.vd, s)
    ensures forall s: Slot {:trigger Cell(q.mem, q.ld, s)} :: Cell(q.mem, q.ld, s) == Cell(p.mem, p.ld, s)
  {
    hide Cell, Available;
  }

  /** ... the page tables ... */
  lemma VirtualKept(p: Paging, q: Paging, v: PageNo)
    requires Rooted(p) && q == p.(mem := q.mem)
    requires forall f: PageNo, i: Slot {:trigger Cell(q.mem, f, i)} ::
               !p.roles[f].LinTab? ==> Cell(q.mem, f, i) == Cell(p.mem, f, i)
    requires Cell(q.mem, q.vd, Dir(v)) == Cell(p.mem, p.vd, Dir(v))
    ensures VirtualEntry(q, v) == VirtualEntry(p, v)
  {
    hide Cell, Available;
  }

  /** ... and the structure, unless they offer a frame in use. */
  lemma RootedKept(p: Paging, q: Paging, g: PageNo)
    requires Rooted(p) && q == p.(mem := q.mem)
    requires forall s: Slot {:trigger Cell(q.mem, q.vd, s)} :: Cell(q.mem, q.vd, s) == Cell(p.mem, p.vd, s)
    requires forall s: Slot {:trigger Cell(q.mem, q.ld, s)} :: Cell(q.mem, q.ld, s) == Cell(p.mem, p.ld, s)
    requires forall h: PageNo {:trigger Available(q.mem, q.ld, h)} ::
               h != g ==> Available(q.mem, q.ld, h) == Available(p.mem, p.ld, h)
    requires g >= 1 && Available(q.mem, q.ld, g) ==> p.roles[g] == Free
    ensures Rooted(q)
  {
    hide Cell, Available, InTables, Frame, Entry, LinAllocated;
  }

  lemma WriteLinearEffect(p: Paging, g: PageNo, w: Word)
    requires Rooted(p) && InTables(g, p.T)
    ensures var q := WriteLinear(p, g, w);
            && Lin(q, g) == w
            && (forall h: PageNo {:trigger Lin(q, h)} :: InTables(h, p.T) && h != g ==> Lin(q, h) == Lin(p, h))
            && (forall s: Slot {:trigger Cell(q.mem, q.vd, s)} :: Cell(q.mem, q.vd, s) == Cell(p.mem, p.vd, s))
            && (forall v: PageNo {:trigger VirtualEntry(q, v)} :: VirtualEntry(q, v) == VirtualEntry(p, v))
            && (forall h: PageNo {:trigger Available(q.mem, q.ld, h)} ::
                  h != g ==> Available(q.mem, q.ld, h) == Available(p.mem, p.ld, h))
            && Available(q.mem, q.ld, g) == LinAvailable(w)
            && (forall f: PageNo, i: Slot {:trigger Cell(q.mem, f, i)} ::
                  !p.roles[f].LinTab? ==> Cell(q.mem, f, i) == Cell(p.mem, f, i))
            && ((g >= 1 && LinAvailable(w) ==> p.roles[g] == Free) ==> Rooted(q))
  {
    hide Available, LinearEntry, PokeLinear, VirtualEntry, Cell, LinearOk, InTables, Rooted, Dir, LinAvailable;
    var q := WriteLinear(p, g, w);
    RootedRoles(p);
    RootedLinear(p);
    PokeLinearEffect(p.mem, p.ld, p.T, g, w);
    WriteLinearCells(p, g, w);
    DirectoriesKept(p, q);
    forall v: PageNo
      ensures VirtualEntry(q, v) == VirtualEntry(p, v)
    {
      VirtualKept(p, q, v);
    }
    if g >= 1 && LinAvailable(w) ==> p.roles[g] == Free {
      RootedKept(p, q, g);
    }
  }

  /** Frame g becomes the table of slot s. */
  function WriteDir(p: Paging, s: Slot, g: PageNo): Paging
    requires |p.roles| == 0x100000
  {
    p.(mem := Poke(p.mem, p.vd, s, Entry(g, MAPPED)), roles := p.roles[g := VirTab(s)])
  }

  lemma WriteDirEffect(p: Paging, s: Slot, g: PageNo)
    requires Rooted(p) && Cell(p.mem, p.vd, s) == 0
    requires 1 <= g && InTables(g, p.T) && p.roles[g] == Free && !Available(p.mem, p.ld, g)
    ensures var q := WriteDir(p, s, g);
            && Rooted(q)
            && Cell(q.mem, q.vd, s) == Entry(g, MAPPED)
            && (forall t: Slot {:trigger Cell(q.mem, q.vd, t)} ::
                  t != s ==> Cell(q.mem, q.vd, t) == Cell(p.mem, p.vd, t))
            && (forall h: PageNo {:trigger Lin(q, h)} :: InTables(h, p.T) ==> Lin(q, h) == Lin(p, h))
            && (forall v: PageNo {:trigger VirtualEntry(q, v)} ::
                  Dir(v) != s ==> VirtualEntry(q, v) == VirtualEntry(p, v))
            && (forall f: PageNo, i: Slot {:trigger Cell(q.mem, f, i)} ::
                  f != p.vd ==> Cell(q.mem, f, i) == Cell(p.mem, f, i))
            && (forall h: PageNo {:trigger Available(q.mem, q.ld, h)} ::
                  Available(q.mem, q.ld, h) == Available(p.mem, p.ld, h))
  {
    hide Available, InTables, VirtualEntry, Cell, Lin, LinearEntry, Poke;
    var q := WriteDir(p, s, g);
    LinearReadsKept(p, q);
    NewSlotRooted(p, q, s, g);
    forall v: PageNo | Dir(v) != s
      ensures VirtualEntry(q, v) == VirtualEntry(p, v)
    {
      OtherSlotKept(p, q, v);
    }
  }

  lemma NewSlotRooted(p: Paging, q: Paging, s: Slot, g: PageNo)
    requires Rooted(p) && Cell(p.mem, p.vd, s) == 0 && q == p.(mem := q.mem, roles := p.roles[g := VirTab(s)])
    requires 1 <= g && InTables(g, p.T) && p.roles[g] == Free && !Available(p.mem, p.ld, g)
    requires TablesPresent(q.mem, q.ld, q.T) && Cell(q.mem, q.vd, s) == Entry(g, MAPPED)
    requires forall t: Slot {:trigger Cell(q.mem, q.ld, t)} :: Cell(q.mem, q.ld, t) == Cell(p.mem, p.ld, t)
    requires forall t: Slot {:trigger Cell(q.mem, q.vd, t)} :: t != s ==> Cell(q.mem, q.vd, t) == Cell(p.mem, p.vd, t)
    requires forall h: PageNo {:trigger Available(q.mem, q.ld, h)} ::
               Available(q.mem, q.ld, h) == Available(p.mem, p.ld, h)
    ensures Rooted(q)
  {
    hide Available, InTables, Cell, TablesPresent;
  }

  /** A store to the directory keeps what lies behind its other slots. */
  lemma OtherSlotKept(p: Paging, q: Paging, v: PageNo)
    requires Rooted(p) && q.vd == p.vd && Cell(q.mem, q.vd, Dir(v)) == Cell(p.mem, p.vd, Dir(v))
    requires forall f: PageNo, i: Slot {:trigger Cell(q.mem, f, i)} ::
               f != p.vd ==> Cell(q.mem, f, i) == Cell(p.mem, f, i)
    ensures VirtualEntry(q, v) == VirtualEntry(p, v)
  {
    hide Available, InTables, Cell, TablesPresent;
  }

  /** Stores outside the linear directory and tables keep every linear entry. */
  lemma LinearReadsKept(p: Paging, q: Paging)
    requires Rooted(p) && q.ld == p.ld && q.T == p.T
    requires forall f: PageNo, i: Slot :: p.roles[f].LinDir? || p.roles[f].LinTab? ==>
               Cell(q.mem, f, i) == Cell(p.mem, f, i)
    ensures TablesPresent(q.mem, q.ld, q.T)
    ensures forall s: Slot {:trigger Cell(q.mem, q.ld, s)} :: Cell(q.mem, q.ld, s) == Cell(p.mem, p.ld, s)
    ensures forall h: PageNo {:trigger Lin(q, h)} :: InTables(h, p.T) ==> Lin(q, h) == Lin(p, h)
    ensures forall h: PageNo {:trigger Available(q.mem, q.ld, h)} ::
              Available(q.mem, q.ld, h) == Available(p.mem, p.ld, h)
  {
    forall s: Slot
      ensures Cell(q.mem, q.ld, s) == Cell(p.mem, p.ld, s)
    {
    }
    forall h: PageNo
      ensures InTables(h, p.T) ==> Lin(q, h) == Lin(p, h)
      ensures Available(q.mem, q.ld, h) == Available(p.mem, p.ld, h)
    {
      assert InTables(h, p.T) <==> Dir(h) < p.T;
    }
  }

  /** Stores outside the directories and the linear tables keep the structure. */
  lemma StructureKept(p: Paging, q: Paging)
    requires Rooted(p) && q == p.(mem := q.mem)
    requires forall f: PageNo, i: Slot :: p.roles[f].LinDir? || p.roles[f].LinTab? || p.roles[f].VirDir? ==>
               Cell(q.mem, f, i) == Cell(p.mem, f, i)
    ensures Rooted(q)
    ensures forall t: Slot {:trigger Cell(q.mem, q.vd, t)} :: Cell(q.mem, q.vd, t) == Cell(p.mem, p.vd, t)
    ensures forall h: PageNo {:trigger Lin(q, h)} :: InTables(h, p.T) ==> Lin(q, h) == Lin(p, h)
  {
    LinearReadsKept(p, q);
    hide LinearEntry, Available, Lin;
    assert forall t: Slot :: Cell(q.mem, q.vd, t) == Cell(p.mem, p.vd, t);
  }

  /** The table of slot s is filled with zeros. */
  function ClearTable(p: Paging, s: Slot): Paging {
    p.(mem := Clear(p.mem, Frame(Cell(p.mem, p.vd, s))))
  }

  lemma ClearTableEffect(p: Paging, s: Slot)
    requires Rooted(p) && Cell(p.mem, p.vd, s) != 0
    ensures var q := ClearTable(p, s);
            && Rooted(q)
            && (forall t: Slot {:trigger Cell(q.mem, q.vd, t)} :: Cell(q.mem, q.vd, t) == Cell(p.mem, p.vd, t))
            && (forall h: PageNo {:trigger Lin(q, h)} :: InTables(h, p.T) ==> Lin(q, h) == Lin(p, h))
            && (forall v: PageNo {:trigger VirtualEntry(q, v)} ::
                  VirtualEntry(q, v) == if Dir(v) == s then 0 else VirtualEntry(p, v))
            && (forall f: PageNo, i: Slot {:trigger Cell(q.mem, f, i)} ::
                  p.roles[f] != VirTab(s) ==> Cell(q.mem, f, i) == Cell(p.mem, f, i))
  {
    var q := ClearTable(p, s);
    StructureKept(p, q);
    hide LinearEntry, Available, Lin;
    forall v: PageNo
      ensures VirtualEntry(q, v) == if Dir(v) == s then 0 else VirtualEntry(p, v)
    {
      assert Cell(q.mem, q.vd, Dir(v)) == Cell(p.mem, p.vd, Dir(v));
    }
  }

  /** The entry of page v is overwritten. */
  function WriteEntry(p: Paging, v: PageNo, w: Word): Paging {
    p.(mem := Poke(p.mem, Frame(Cell(p.mem, p.vd, Dir(v))), Tab(v), w))
  }

  lemma WriteEntryEffect(p: Paging, v: PageNo, w: Word)
    requires Rooted(p) && Cell(p.mem, p.vd, Dir(v)) != 0
    ensures var q := WriteEntry(p, v, w);
            && Rooted(q)
            && (forall t: Slot {:trigger Cell(q.mem, q.vd, t)} :: Cell(q.mem, q.vd, t) == Cell(p.mem, p.vd, t))
            && (forall h: PageNo {:trigger Lin(q, h)} :: InTables(h, p.T) ==> Lin(q, h) == Lin(p, h))
            && (forall u: PageNo {:trigger VirtualEntry(q, u)} ::
                  VirtualEntry(q, u) == if u == v then w else VirtualEntry(p, u))
            && (forall f: PageNo, i: Slot {:trigger Cell(q.mem, f, i)} ::
                  !p.roles[f].VirTab? ==> Cell(q.mem, f, i) == Cell(p.mem, f, i))
  {
    var q := WriteEntry(p, v, w);
    StructureKept(p, q);
    hide LinearEntry, Available, Lin;
    forall u: PageNo
      ensures VirtualEntry(q, u) == if u == v then w else VirtualEntry(p, u)
    {
      assert Cell(q.mem, q.vd, Dir(u)) == Cell(p.mem, p.vd, Dir(u));
      assert u == PageAt(Dir(u), Tab(u)) && v == PageAt(Dir(v), Tab(v));
    }
  }

  // ------------------------------------------------------------- creating a table

  /** The available frame g is taken from the allocator and becomes the table of slot s, with
      whatever it contained still in it. */
  function Adopt(p: Paging, s: Slot, g: PageNo): (q: Paging)
    requires |p.roles| == 0x100000
    ensures |q.roles| == 0x100000
  {
    WriteDir(WriteLinear(p, g, LINEAR_ALLOCATED), s, g)
  }

  lemma AvailableFree(p: Paging, g: PageNo)
    requires Rooted(p) && g >= 1 && Available(p.mem, p.ld, g)
    ensures |p.roles| == 0x100000 && p.roles[g] == Free && !LinAvailable(LINEAR_ALLOCATED)
  {
    TakenFlags();
    hide Available, LinAvailable, Cell, TablesPresent, InTables, Frame, Entry;
  }

  lemma TakenFlags()
    ensures !LinAvailable(LINEAR_ALLOCATED)
  {
  }

  lemma RootedDirs(p: Paging)
    requires Rooted(p)
    ensures |p.roles| == 0x100000 && p.roles[p.ld] == LinDir && p.roles[p.vd] == VirDir
  {
  }

  lemma AdoptEffect(p: Paging, s: Slot, g: PageNo)
    requires Rooted(p) && Cell(p.mem, p.vd, s) == 0
    requires 1 <= g && InTables(g, p.T) && Available(p.mem, p.ld, g)
    ensures var q := Adopt(p, s, g);
            && Rooted(q)
            && q == p.(mem := q.mem, roles := p.roles[g := VirTab(s)])
            && p.roles[g] == Free
            && Cell(q.mem, q.vd, s) == Entry(g, MAPPED)
            && (forall t: Slot {:trigger Cell(q.mem, q.vd, t)} ::
                  t != s ==> Cell(q.mem, q.vd, t) == Cell(p.mem, p.vd, t))
            && (forall h: PageNo {:trigger Lin(q, h)} :: InTables(h, p.T) && h != g ==> Lin(q, h) == Lin(p, h))
            && (forall v: PageNo {:trigger VirtualEntry(q, v)} ::
                  Dir(v) != s ==> VirtualEntry(q, v) == VirtualEntry(p, v))
            && (forall f: PageNo, i: Slot {:trigger Cell(q.mem, f, i)} ::
                  Inert(p.roles[f]) ==> Cell(q.mem, f, i) == Cell(p.mem, f, i))
            && !Available(q.mem, q.ld, g)
            && (forall h: PageNo {:trigger Available(q.mem, q.ld, h)} ::
                  h != g ==> Available(q.mem, q.ld, h) == Available(p.mem, p.ld, h))
  {
    hide Available, LinearEntry, VirtualEntry, Rooted, Cell, InTables, Lin, Entry, PokeLinear, Poke, LinAvailable;
    AvailableFree(p, g);
    WriteLinearEffect(p, g, LINEAR_ALLOCATED);
    RootedDirs(p);
    WriteDirEffect(WriteLinear(p, g, LINEAR_ALLOCATED), s, g);
  }

  /** An entry stays good when its own linear entry is untouched and roles change only from Free. */
  lemma GoodEntryKept(p: Paging, q: Paging, u: PageNo, except: set<PageNo>)
    requires |p.roles| == |q.roles| == 0x100000 && q.T == p.T
    requires GoodEntry(p, u) && VirtualEntry(q, u) == VirtualEntry(p, u)
    requires forall x: PageNo :: x in except ==> !p.roles[x].Data?
    requires u in except ==> p.roles[u] == Free
    requires forall h: PageNo {:trigger Lin(q, h)} ::
               InTables(h, p.T) && h !in except && p.roles[h] != Free ==> Lin(q, h) == Lin(p, h)
    requires forall f: PageNo {:trigger q.roles[f]} :: q.roles[f] == p.roles[f] || p.roles[f] == Free
    ensures GoodEntry(q, u)
  {
    hide VirtualEntry, Lin, InTables, Entry, Frame;
  }

  lemma LayoutRooted(p: Paging, dirty: set<Slot>, hole: set<PageNo>)
    requires Layout(p, dirty, hole)
    ensures Rooted(p) && |p.roles| == 0x100000
  {
  }

  lemma LayoutEntry(p: Paging, dirty: set<Slot>, hole: set<PageNo>, v: PageNo)
    requires Layout(p, dirty, hole) && Dir(v) !in dirty && v !in hole
    ensures |p.roles| == 0x100000 && GoodEntry(p, v)
  {
  }

  lemma AdoptKeepsLayout(p: Paging, s: Slot, g: PageNo, dirty: set<Slot>)
    requires Layout(p, dirty, {}) && Cell(p.mem, p.vd, s) == 0
    requires 1 <= g && InTables(g, p.T) && Available(p.mem, p.ld, g)
    ensures Layout(Adopt(p, s, g), dirty + {s}, {})
  {
    hide Available, VirtualEntry, Rooted, Lin, Cell, Dir, InTables, GoodEntry;
    LayoutRooted(p, dirty, {});
    AdoptEffect(p, s, g);
    var q := Adopt(p, s, g);
    forall v: PageNo | Dir(v) !in dirty + {s}
      ensures GoodEntry(q, v)
    {
      LayoutEntry(p, dirty, {}, v);
      GoodEntryKept(p, q, v, {g});
    }
  }

  /** Once the identity entry of a new table has been installed, its frame is entered in the
      linear table and the table is cleared. */
  function Seal(p: Paging, s: Slot, g: PageNo): Paging {
    ClearTable(WriteLinear(p, g, Entry(g, LINEAR_ALLOCATED)), s)
  }

  lemma TableFrame(p: Paging, s: Slot, g: PageNo)
    requires Rooted(p) && Cell(p.mem, p.vd, s) == Entry(g, MAPPED)
    ensures p.roles[g] == VirTab(s) && 1 <= g && InTables(g, p.T) && g < HEAP
    ensures !LinAvailable(Entry(g, LINEAR_ALLOCATED))
  {
    hide Available, Cell, LinAllocated;
  }

  lemma SealEffect(p: Paging, s: Slot, g: PageNo)
    requires Rooted(p) && Cell(p.mem, p.vd, s) == Entry(g, MAPPED)
    ensures var q := Seal(p, s, g);
            && Rooted(q)
            && q == p.(mem := q.mem)
            && (forall t: Slot {:trigger Cell(q.mem, q.vd, t)} :: Cell(q.mem, q.vd, t) == Cell(p.mem, p.vd, t))
            && Lin(q, g) == Entry(g, LINEAR_ALLOCATED)
            && (forall h: PageNo {:trigger Lin(q, h)} :: InTables(h, p.T) && h != g ==> Lin(q, h) == Lin(p, h))
            && (forall v: PageNo {:trigger VirtualEntry(q, v)} ::
                  VirtualEntry(q, v) == if Dir(v) == s then 0 else VirtualEntry(p, v))
            && (forall f: PageNo, i: Slot {:trigger Cell(q.mem, f, i)} ::
                  Inert(p.roles[f]) ==> Cell(q.mem, f, i) == Cell(p.mem, f, i))
  {
    hide Available, LinearEntry, VirtualEntry, Lin, Rooted, Cell, Dir, Tab, Frame, Flags, InTables, LinAvailable;
    TableFrame(p, s, g);
    WriteLinearEffect(p, g, Entry(g, LINEAR_ALLOCATED));
    ClearTableEffect(WriteLinear(p, g, Entry(g, LINEAR_ALLOCATED)), s);
  }

  /** The new table of v's slot has been adopted, its identity entry installed, and it has been
      sealed: the invariant holds again, and only new tables have appeared. */
  lemma SealKeepsLayout(p: Paging, a: Paging, g: PageNo, v: PageNo, dirty: set<Slot>)
    requires Layout(p, dirty, {}) && Cell(p.mem, p.vd, Dir(v)) == 0 && Dir(v) !in dirty
    requires 1 <= g && InTables(g, p.T) && Available(p.mem, p.ld, g)
    requires Layout(a, dirty + {Dir(v)}, {g})
    requires Installed(Adopt(p, Dir(v), g), a, g, Entry(g, MAPPED), dirty + {Dir(v)})
    ensures Layout(Seal(a, Dir(v), g), dirty, {})
  {
    hide Available, VirtualEntry, Rooted, Lin, Cell, InTables, GoodEntry, Layout, Grown, Dir, Adopt;
    var s := Dir(v);
    LayoutRooted(p, dirty, {});
    LayoutRooted(a, dirty + {s}, {g});
    AdoptEffect(p, s, g);
    InstalledDir(Adopt(p, s, g), a, g, Entry(g, MAPPED), dirty + {s}, s);
    SealEffect(a, s, g);
    TableFrame(a, s, g);
    var q := Seal(a, s, g);
    forall u: PageNo | Dir(u) !in dirty
      ensures GoodEntry(q, u)
    {
      if Dir(u) == s {
        EmptyEntryGood(q, u);
      } else if u == g {
        IdentityEntryGood(q, g, s);
      } else {
        LayoutEntry(a, dirty + {s}, {g}, u);
        GoodEntryKept(a, q, u, {g});
      }
    }
    LayoutFromEntries(q, dirty);
  }

  lemma InstalledDir(p: Paging, q: Paging, v: PageNo, w: Word, dirty: set<Slot>, s: Slot)
    requires |p.roles| == 0x100000 && Installed(p, q, v, w, dirty) && Cell(p.mem, p.vd, s) != 0
    ensures q.vd == p.vd && Cell(q.mem, q.vd, s) == Cell(p.mem, p.vd, s)
  {
  }

  lemma GrownSlot(p: Paging, q: Paging, v: PageNo, dirty: set<Slot>)
    requires |p.roles| == 0x100000 && Grown(p, q, v, dirty)
    ensures Cell(q.mem, q.vd, Dir(v)) != 0
  {
  }

  lemma EmptyEntryGood(p: Paging, v: PageNo)
    requires |p.roles| == 0x100000 && VirtualEntry(p, v) == 0
    ensures GoodEntry(p, v)
  {
  }

  lemma IdentityEntryGood(p: Paging, g: PageNo, s: Slot)
    requires |p.roles| == 0x100000 && VirtualEntry(p, g) == Entry(g, MAPPED) && g < HEAP
    requires InTables(g, p.T) && Lin(p, g) == Entry(g, LINEAR_ALLOCATED) && p.roles[g] == VirTab(s)
    ensures GoodEntry(p, g)
  {
  }

  lemma LayoutFromEntries(p: Paging, dirty: set<Slot>)
    requires Rooted(p) && forall v: PageNo :: Dir(v) !in dirty ==> GoodEntry(p, v)
    ensures Layout(p, dirty, {})
  {
  }

  lemma SealGrown(p: Paging, a: Paging, g: PageNo, v: PageNo, dirty: set<Slot>)
    requires Rooted(p) && Cell(p.mem, p.vd, Dir(v)) == 0 && Dir(v) !in dirty
    requires 1 <= g && InTables(g, p.T) && Available(p.mem, p.ld, g)
    requires Rooted(a)
    requires Installed(Adopt(p, Dir(v), g), a, g, Entry(g, MAPPED), dirty + {Dir(v)})
    ensures Grown(p, Seal(a, Dir(v), g), v, dirty)
  {
    hide Available, VirtualEntry, Rooted, Lin, Cell, InTables, Adopt, Seal;
    var s := Dir(v);
    RootedRoles(p);
    AdoptEffect(p, s, g);
    var b := Adopt(p, s, g);
    assert Cell(a.mem, a.vd, s) == Entry(g, MAPPED);
    SealEffect(a, s, g);
    TableFrame(a, s, g);
    var q := Seal(a, s, g);
    EmptySlotEntries(p, s);
    SealGrownEntries(p, b, a, q, g, v, dirty);
    assert forall f: PageNo :: q.roles[f] == p.roles[f] || NewTable(p, q, f);
  }

  lemma EmptySlotEntries(p: Paging, s: Slot)
    requires Cell(p.mem, p.vd, s) == 0
    ensures forall u: PageNo {:trigger VirtualEntry(p, u)} :: Dir(u) == s ==> VirtualEntry(p, u) == 0
  {
  }

  lemma SealGrownEntries(p: Paging, b: Paging, a: Paging, q: Paging, g: PageNo, v: PageNo, dirty: set<Slot>)
    requires |p.roles| == |b.roles| == |a.roles| == |q.roles| == 0x100000
    requires p.roles[g] == Free && b.roles == p.roles[g := VirTab(Dir(v))] && q.roles == a.roles
    requires Installed(b, a, g, Entry(g, MAPPED), dirty + {Dir(v)})
    requires forall u: PageNo {:trigger VirtualEntry(b, u)} ::
               Dir(u) != Dir(v) ==> VirtualEntry(b, u) == VirtualEntry(p, u)
    requires forall u: PageNo {:trigger VirtualEntry(p, u)} :: Dir(u) == Dir(v) ==> VirtualEntry(p, u) == 0
    requires forall u: PageNo {:trigger VirtualEntry(q, u)} ::
               VirtualEntry(q, u) == if Dir(u) == Dir(v) then 0 else VirtualEntry(a, u)
    ensures forall u: PageNo {:trigger VirtualEntry(q, u)} :: Dir(u) !in dirty && u != v ==>
              || VirtualEntry(q, u) == VirtualEntry(p, u)
              || (NewTable(p, q, u) && VirtualEntry(q, u) == Entry(u, MAPPED))
  {
    hide VirtualEntry, Lin, Cell, InTables, Dir, Entry;
    forall u: PageNo | Dir(u) !in dirty && u != v
      ensures VirtualEntry(q, u) == VirtualEntry(p, u)
           || (NewTable(p, q, u) && VirtualEntry(q, u) == Entry(u, MAPPED))
    {
      assert a.roles[g] == b.roles[g] || NewTable(b, a, g);
      assert VirtualEntry(p, u) == VirtualEntry(p, u);
    }
  }

  // ---------------------------------------------------------- set_virtual_entry

  /** The frames that set_virtual_entry will take for page v, outermost first, told from the page tables,
      the linear tables and the cursors before the call. Each is the frame that a search for one frame
      gives once the frames before it have been adopted, and the last one lies in a slot with a table. */
  ghost predicate Takes(p: Paging, zones: seq<Zone>, v: PageNo, frames: seq<PageNo>)
    requires |p.roles| == 0x100000
    decreases |frames|
  {
    && |zones| == 3 && p.T <= 64
    && if Cell(p.mem, p.vd, Dir(v)) != 0 then frames == []
       else
         && frames != []
         && var r := PickFrom(p.mem, p.ld, zones, p.T, ZONE_NORMAL);
         && r.Picked? && r.frame == frames[0]
         && Takes(Adopt(p, Dir(v), r.frame), r.zones, r.frame, frames[1..])
  }

  /** No call can take two different sequences of frames. */
  lemma {:induction false} TakesUnique(p: Paging, zones: seq<Zone>, v: PageNo, a: seq<PageNo>, b: seq<PageNo>)
    requires |p.roles| == 0x100000 && Takes(p, zones, v, a) && Takes(p, zones, v, b)
    ensures a == b
    decreases |a|
  {
    hide PickFrom, Adopt, Cell;
    if Cell(p.mem, p.vd, Dir(v)) == 0 {
      var r := PickFrom(p.mem, p.ld, zones, p.T, ZONE_NORMAL);
      TakesUnique(Adopt(p, Dir(v), r.frame), r.zones, r.frame, a[1..], b[1..]);
      assert a == [a[0]] + a[1..] && b == [b[0]] + b[1..];
    }
  }

  lemma TakesMore(p: Paging, zones: seq<Zone>, v: PageNo, g: PageNo, zones': seq<Zone>, rest: seq<PageNo>)
    requires |p.roles| == 0x100000 && |zones| == 3 && p.T <= 64 && Cell(p.mem, p.vd, Dir(v)) == 0
    requires PickFrom(p.mem, p.ld, zones, p.T, ZONE_NORMAL) == Picked(g, zones')
    requires Takes(Adopt(p, Dir(v), g), zones', g, rest)
    ensures Takes(p, zones, v, [g] + rest)
  {
    hide PickFrom, Adopt, Cell;
    assert ([g] + rest)[1..] == rest;
  }

  lemma TakesNothing(p: Paging, zones: seq<Zone>, v: PageNo)
    requires |p.roles| == 0x100000 && |zones| == 3 && p.T <= 64 && Cell(p.mem, p.vd, Dir(v)) != 0
    ensures Takes(p, zones, v, [])
  {
  }

  lemma TakesNone(p: Paging, zones: seq<Zone>, v: PageNo)
    requires |p.roles| == 0x100000 && |zones| == 3 && p.T <= 64 && Cell(p.mem, p.vd, Dir(v)) == 0
    requires var r := PickFrom(p.mem, p.ld, zones, p.T, ZONE_NORMAL);
             r.Picked? ==> forall rest {:trigger Takes(Adopt(p, Dir(v), r.frame), r.zones, r.frame, rest)} ::
                             !Takes(Adopt(p, Dir(v), r.frame), r.zones, r.frame, rest)
    ensures forall frames {:trigger Takes(p, zones, v, frames)} :: !Takes(p, zones, v, frames)
  {
    hide PickFrom, Adopt, Cell;
  }

  /** The tables set_virtual_entry created, outermost first. The identity page of each lies in the
      next one, and that of the last in a table that existed before the call or in one that this
      call created. In the second case the entry has been wiped by the clearing of that table. */
  ghost predicate Chain(p: Paging, q: Paging, v: PageNo, chain: seq<PageNo>)
    requires |p.roles| == |q.roles| == 0x100000
  {
    && (chain == [] <==> Cell(p.mem, p.vd, Dir(v)) != 0)
    && (forall f: PageNo {:trigger f in chain} :: NewTable(p, q, f) <==> f in chain)
    && (forall f: PageNo {:trigger f in chain} :: f in chain ==> Lin(q, f) == Entry(f, LINEAR_ALLOCATED))
    && (forall j :: 0 <= j < |chain| - 1 ==> Cell(p.mem, p.vd, Dir(chain[j])) == 0)
    && (forall j :: 0 <= j < |chain| && chain[j] != v ==>
          VirtualEntry(q, chain[j]) ==
          if j < |chain| - 1 || Cell(p.mem, p.vd, Dir(chain[j])) != 0 then Entry(chain[j], MAPPED) else 0)
  }

  lemma ChainGrows(p: Paging, a: Paging, g: PageNo, v: PageNo, w: Word, dirty: set<Slot>, chain: seq<PageNo>)
    requires Rooted(p) && Cell(p.mem, p.vd, Dir(v)) == 0 && Dir(v) !in dirty
    requires 1 <= g && InTables(g, p.T) && Available(p.mem, p.ld, g)
    requires Rooted(a) && |a.roles| == |p.roles| == 0x100000
    requires Installed(Adopt(p, Dir(v), g), a, g, Entry(g, MAPPED), dirty + {Dir(v)})
    requires Chain(Adopt(p, Dir(v), g), a, g, chain)
    ensures |Seal(a, Dir(v), g).roles| == 0x100000
    ensures Chain(p, WriteEntry(Seal(a, Dir(v), g), v, w), v, [g] + chain)
  {
    hide Available, VirtualEntry, Rooted, Lin, Cell, InTables, Adopt, Seal, Dir, Grown, Entry;
    var s := Dir(v);
    AdoptEffect(p, s, g);
    var b := Adopt(p, s, g);
    InstalledDir(b, a, g, Entry(g, MAPPED), dirty + {s}, s);
    SealEffect(a, s, g);
    var q := Seal(a, s, g);
    WriteEntryEffect(q, v, w);
    var r := WriteEntry(q, v, w);
    GrownRoles(b, a, g, dirty + {s});
    forall f: PageNo
      ensures NewTable(p, r, f) <==> f in [g] + chain
      ensures f in [g] + chain ==> Lin(r, f) == Entry(f, LINEAR_ALLOCATED)
    {
      assert NewTable(b, a, f) <==> f in chain;
      TablesInRange(a, f);
    }
    forall j | 0 <= j < |chain|
      ensures chain[j] != g && (j < |chain| - 1 ==> Dir(chain[j]) != s)
    {
      assert chain[j] in chain && NewTable(b, a, chain[j]);
    }
  }

  lemma TablesInRange(p: Paging, f: PageNo)
    requires Rooted(p) && |p.roles| == 0x100000
    ensures p.roles[f].VirTab? ==> InTables(f, p.T)
  {
  }

  lemma GrownRoles(p: Paging, q: Paging, v: PageNo, dirty: set<Slot>)
    requires |p.roles| == 0x100000 && Grown(p, q, v, dirty)
    ensures |q.roles| == 0x100000
    ensures forall f: PageNo {:trigger q.roles[f]} :: q.roles[f] == p.roles[f] || NewTable(p, q, f)
  {
  }

  lemma ChainEmpty(p: Paging, v: PageNo, w: Word)
    requires Rooted(p) && |p.roles| == 0x100000 && Cell(p.mem, p.vd, Dir(v)) != 0
    ensures Chain(p, WriteEntry(p, v, w), v, [])
  {
  }

  /** After the call, a table that it created has no identity entry. */
  ghost predicate Wiped(p: Paging, q: Paging, v: PageNo)
    requires |p.roles| == |q.roles| == 0x100000
  {
    exists f: PageNo :: NewTable(p, q, f) && f != v && VirtualEntry(q, f) != Entry(f, MAPPED)
  }

  /** Before the call: the last of the frames that it will take is not page v and lies in a slot without a
      table. */
  ghost predicate Wipes(p: Paging, zones: seq<Zone>, v: PageNo)
    requires |p.roles| == 0x100000
  {
    exists frames :: Takes(p, zones, v, frames) && LastUncovered(p, v, frames)
  }

  ghost predicate LastUncovered(p: Paging, v: PageNo, frames: seq<PageNo>) {
    frames != [] && var last := frames[|frames| - 1]; last != v && Cell(p.mem, p.vd, Dir(last)) == 0
  }

  /** A call leaves a table that it created without its identity entry if and only if `Wipes` held before
      it; the chain is what the call reports. */
  lemma WipedIff(p: Paging, zones: seq<Zone>, q: Paging, v: PageNo, chain: seq<PageNo>)
    requires |p.roles| == |q.roles| == 0x100000 && Takes(p, zones, v, chain) && Chain(p, q, v, chain)
    ensures Wiped(p, q, v) <==> Wipes(p, zones, v)
  {
    hide VirtualEntry, Cell, Dir, Takes;
    if Wipes(p, zones, v) {
      var frames :| Takes(p, zones, v, frames) && LastUncovered(p, v, frames);
      TakesUnique(p, zones, v, frames, chain);
      var last := chain[|chain| - 1];
      assert last in chain;
      assert NewTable(p, q, last);
    }
    if Wiped(p, q, v) {
      var f: PageNo :| NewTable(p, q, f) && f != v && VirtualEntry(q, f) != Entry(f, MAPPED);
      assert f in chain;
      assert LastUncovered(p, v, chain);
    }
  }

  /** When the first search gives a frame of v's own slot, or of a slot with a table, the call takes that
      frame alone. In the first case it is left without its identity entry, unless it is page v. */
  lemma FirstFrameDecides(p: Paging, zones: seq<Zone>, v: PageNo, g: PageNo, zones': seq<Zone>)
    requires Rooted(p) && |p.roles| == 0x100000 && |zones| == |zones'| == 3 && p.T <= 64
    requires Cell(p.mem, p.vd, Dir(v)) == 0 && 1 <= g && InTables(g, p.T) && Available(p.mem, p.ld, g)
    requires PickFrom(p.mem, p.ld, zones, p.T, ZONE_NORMAL) == Picked(g, zones')
    requires Dir(g) == Dir(v) || Cell(p.mem, p.vd, Dir(g)) != 0
    ensures Takes(p, zones, v, [g])
    ensures Wipes(p, zones, v) <==> Dir(g) == Dir(v) && g != v
  {
    hide Rooted, Available, InTables, Adopt, Cell, Takes, PickFrom, Lin, VirtualEntry, LinearEntry, Dir;
    AdoptEffect(p, Dir(v), g);
    TakesNothing(Adopt(p, Dir(v), g), zones', g);
    TakesMore(p, zones, v, g, zones', []);
    assert [g] + [] == [g];
    if Wipes(p, zones, v) {
      var frames :| Takes(p, zones, v, frames) && LastUncovered(p, v, frames);
      TakesUnique(p, zones, v, frames, [g]);
    }
    assert Dir(g) == Dir(v) && g != v ==> LastUncovered(p, v, [g]);
  }

  /** When the two frames at the cursor are available and lie in one slot without a table, a call for a page
      of another such slot takes both, and leaves the second without its identity entry. */
  lemma TwoFramesWipe(p: Paging, zones: seq<Zone>, v: PageNo, c: PageNo)
    requires Rooted(p) && |p.roles| == 0x100000 && |zones| == 3 && p.T <= 64
    requires zones[ZONE_NORMAL].next != 0 && Frame(zones[ZONE_NORMAL].next) == c && 1 <= c < 0xFFFF
    requires c + 1 < SweepEnd(zones[ZONE_NORMAL].end / TABLE_BYTES, p.T) && InTables(c + 1, p.T)
    requires Available(p.mem, p.ld, c) && Available(p.mem, p.ld, c + 1) && Dir(c) == Dir(c + 1) != Dir(v)
    requires Cell(p.mem, p.vd, Dir(v)) == 0 && Cell(p.mem, p.vd, Dir(c)) == 0
    ensures Takes(p, zones, v, [c, c + 1]) && Wipes(p, zones, v)
  {
    hide Rooted, Available, Adopt, Cell, Takes, PickFrom, Lin, VirtualEntry, LinearEntry, Dir, SweepEnd;
    PickAtCursor(p.mem, p.ld, zones, p.T, ZONE_NORMAL);
    var zones' := zones[ZONE_NORMAL := zones[ZONE_NORMAL].(next := Address(c) + 4096)];
    var q := Adopt(p, Dir(v), c);
    AdoptEffect(p, Dir(v), c);
    assert Frame(zones'[ZONE_NORMAL].next) == c + 1;
    PickAtCursor(q.mem, q.ld, zones', q.T, ZONE_NORMAL);
    var zones2 := zones'[ZONE_NORMAL := zones'[ZONE_NORMAL].(next := Address(c + 1) + 4096)];
    FirstFrameDecides(q, zones', c, c + 1, zones2);
    TakesMore(p, zones, v, c, zones', [c + 1]);
    assert [c] + [c + 1] == [c, c + 1];
    assert LastUncovered(p, v, [c, c + 1]);
  }

  /** The last store of set_virtual_entry, into a table that exists. */
  lemma InstallEntry(p: Paging, q: Paging, v: PageNo, w: Word, dirty: set<Slot>)
    requires |p.roles| == 0x100000 && Grown(p, q, v, dirty) && Rooted(q)
    ensures Installed(p, WriteEntry(q, v, w), v, w, dirty)
  {
    hide VirtualEntry, Lin, Cell, InTables, Rooted, Dir;
    RootedRoles(q);
    WriteEntryEffect(q, v, w);
  }

  lemma InstallKeepsLayout(q: Paging, v: PageNo, w: Word, dirty: set<Slot>)
    requires Layout(q, dirty, {}) && Cell(q.mem, q.vd, Dir(v)) != 0
    ensures Layout(WriteEntry(q, v, w), dirty, {v})
  {
    hide VirtualEntry, Lin, Cell, InTables, Rooted, Dir, GoodEntry;
    LayoutRooted(q, dirty, {});
    WriteEntryEffect(q, v, w);
    forall u: PageNo | Dir(u) !in dirty && u != v
      ensures GoodEntry(WriteEntry(q, v, w), u)
    {
      LayoutEntry(q, dirty, {}, u);
      GoodEntryKept(q, WriteEntry(q, v, w), u, {});
    }
  }

  /** Writing the linear entry of the frame an identity page maps completes the page. */
  lemma GrownReflexive(p: Paging, v: PageNo, dirty: set<Slot>)
    requires |p.roles| == 0x100000 && Cell(p.mem, p.vd, Dir(v)) != 0
    ensures Grown(p, p, v, dirty)
  {
  }

  /** The directory slots that have no table; set_virtual_entry recurses at most this often. */
  ghost function EmptySlots(m: Ram, vd: PageNo): set<Slot> {
    set s: Slot | Cell(m, vd, s) == 0
  }

  /** The paging state of the kernel. */
  ghost function Now(k: Kernel): Paging
    requires k.ram.Length == RAM_WORDS
    reads k, k.ram
  {
    Paging(k.Mem(), k.linearDir, k.virtualDir, TableCount(k.upper), k.roles)
  }

  /** set_linear_entry. */
  method SetLinearEntry(k: Kernel, page: PageNo, frame: PageNo, flags: nat)
    requires k.ram.Length == RAM_WORDS && flags < 4096
    modifies k.ram
    ensures Now(k) == WriteLinear(old(Now(k)), frame, Entry(page, flags))
  {
    k.Store(Frame(k.Load(k.linearDir, Dir(frame))), Tab(frame), Entry(page, flags));
  }

  lemma EmptySlotsShrink(p: Paging, s: Slot, g: PageNo)
    requires Rooted(p) && Cell(p.mem, p.vd, s) == 0
    requires 1 <= g && InTables(g, p.T) && Available(p.mem, p.ld, g)
    ensures |p.roles| == 0x100000
    ensures EmptySlots(Adopt(p, s, g).mem, p.vd) < EmptySlots(p.mem, p.vd)
  {
    hide Rooted, Available, InTables, Adopt, Cell, VirtualEntry, Lin;
    RootedRoles(p);
    AdoptEffect(p, s, g);
    assert s in EmptySlots(p.mem, p.vd);
  }

  /** The first half of creating a table: a frame is allocated and entered in the directory. */
  method AdoptFrame(k: Kernel, s: Slot) returns (ok: bool, g: PageNo)
    requires AllocatorOk(k) && Rooted(Now(k)) && Cell(k.Mem(), k.virtualDir, s) == 0
    modifies k.ram, k`zones, k`roles
    ensures AllocatorOk(k)
    ensures ok ==>
              && 1 <= g && InTables(g, TableCount(k.upper)) && |old(k.roles)| == 0x100000
              && Available(old(k.Mem()), k.linearDir, g)
              && Now(k) == Adopt(old(Now(k)), s, g)
    ensures !ok ==> forall h: PageNo :: h >= 1 ==> !Available(k.Mem(), k.linearDir, h)
    ensures |old(k.zones)| == 3 && TableCount(k.upper) <= 64
    ensures PickFrom(old(k.Mem()), k.linearDir, old(k.zones), TableCount(k.upper), ZONE_NORMAL) ==
            if ok then Picked(g, k.zones) else NoFrame
  {
    hide Available, Rooted, InTables, LinearOk, PokeLinear, PickFrom;
    RootedLinear(Now(k));
    RootedRoles(Now(k));
    ok, g := GetFreePage(k, ZONE_NORMAL);
    if ok {
      k.Store(k.virtualDir, s, Entry(g, MAPPED));
      k.roles := k.roles[g := VirTab(s)];
    }
  }

  /** The second half: the table's own frame is entered in the linear table, then it is cleared. */
  method SealTable(k: Kernel, s: Slot, g: PageNo)
    requires k.ram.Length == RAM_WORDS && Rooted(Now(k))
    requires Cell(k.Mem(), k.virtualDir, s) == Entry(g, MAPPED)
    modifies k.ram
    ensures Now(k) == Seal(old(Now(k)), s, g)
  {
    hide Available, Rooted, InTables, PokeLinear, Cell, LinearEntry, VirtualEntry, Lin, Dir, Tab;
    TableFrame(Now(k), s, g);
    WriteLinearEffect(Now(k), g, Entry(g, LINEAR_ALLOCATED));
    SetLinearEntry(k, g, g, LINEAR_ALLOCATED);
    k.ClearPage(g);
  }

  method StoreEntry(k: Kernel, v: PageNo, w: Word)
    requires k.ram.Length == RAM_WORDS
    modifies k.ram
    ensures Now(k) == WriteEntry(old(Now(k)), v, w)
  {
    k.Store(Frame(k.Load(k.virtualDir, Dir(v))), Tab(v), w);
  }

  /** set_virtual_entry. `ok` is false when the allocator has no frame left and spins. */
  method SetVirtualEntry(k: Kernel, v: PageNo, frame: PageNo, flags: nat, ghost dirty: set<Slot>)
    returns (ok: bool, ghost chain: seq<PageNo>)
    requires AllocatorOk(k) && flags < 4096
    requires Layout(Now(k), dirty, {})
    requires forall s: Slot :: s in dirty ==> Cell(k.Mem(), k.virtualDir, s) != 0
    modifies k.ram, k`zones, k`roles
    ensures AllocatorOk(k)
    ensures ok ==> Layout(Now(k), dirty, {v})
    ensures ok ==> |old(k.roles)| == |k.roles| == 0x100000
    ensures ok ==> Installed(old(Now(k)), Now(k), v, Entry(frame, flags), dirty)
    ensures ok ==> Chain(old(Now(k)), Now(k), v, chain)
    ensures !ok ==> forall h: PageNo :: h >= 1 ==> !Available(k.Mem(), k.linearDir, h)
    ensures |old(k.roles)| == 0x100000
    ensures ok ==> Takes(old(Now(k)), old(k.zones), v, chain)
    ensures ok ==> (Wiped(old(Now(k)), Now(k), v) <==> Wipes(old(Now(k)), old(k.zones), v))
    ensures !ok ==> forall frames {:trigger Takes(old(Now(k)), old(k.zones), v, frames)} ::
                      !Takes(old(Now(k)), old(k.zones), v, frames)
    decreases EmptySlots(k.Mem(), k.virtualDir)
  {
    hide Available, LinearEntry, VirtualEntry, Rooted, Lin, InTables, Layout, Grown, Installed, ZonesOk, LinearOk,
         Adopt, Seal, EmptySlots, Cell, Dir, Tab, WriteEntry, Chain, Takes, PickFrom, Wiped, Wipes;
    ghost var p, zs := Now(k), k.zones;
    ZoneCount(zs, k.upper);
    LayoutRooted(p, dirty, {});
    chain := [];
    if k.Load(k.virtualDir, Dir(v)) == 0 {
      var g: PageNo;
      ok, g := AdoptFrame(k, Dir(v));
      if !ok {
        TakesNone(p, zs, v);
        return;
      }
      ghost var moved := k.zones;
      AdoptEffect(p, Dir(v), g);
      AdoptKeepsLayout(p, Dir(v), g, dirty);
      EmptySlotsShrink(p, Dir(v), g);
      ok, chain := SetVirtualEntry(k, g, g, MAPPED, dirty + {Dir(v)});
      if !ok {
        TakesNone(p, zs, v);
        return;
      }
      TakesMore(p, zs, v, g, moved, chain);
      ghost var a := Now(k);
      LayoutRooted(a, dirty + {Dir(v)}, {g});
      SealKeepsLayout(p, a, g, v, dirty);
      SealGrown(p, a, g, v, dirty);
      ChainGrows(p, a, g, v, Entry(frame, flags), dirty, chain);
      chain := [g] + chain;
      InstalledDir(Adopt(p, Dir(v), g), a, g, Entry(g, MAPPED), dirty + {Dir(v)}, Dir(v));
      SealTable(k, Dir(v), g);
    } else {
      GrownReflexive(p, v, dirty);
      ChainEmpty(p, v, Entry(frame, flags));
      TakesNothing(p, zs, v);
      chain := [];
    }
    ghost var q := Now(k);
    LayoutRooted(q, dirty, {});
    GrownSlot(p, q, v, dirty);
    InstallEntry(p, q, v, Entry(frame, flags), dirty);
    InstallKeepsLayout(q, v, Entry(frame, flags), dirty);
    StoreEntry(k, v, Entry(frame, flags));
    WipedIff(p, zs, Now(k), v, chain);
    ok := true;
  }
}
