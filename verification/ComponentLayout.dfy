/** The order in which the template emits the components of `system`, and the index walk with which the
    reader expects them. */
module ComponentLayout {
  import opened Common
  import opened ConfigList

  datatype Component = Component(id: string, name: string)

  // ---------------------------------------------------------------- the writer

  function Numbered(prefix: string, n: nat): seq<Component> {
    seq(n, i requires 0 <= i < n => Component("system." + prefix + Digits(i), prefix + Digits(i)))
  }

  const TAIL: seq<Component> := [
    Component("system.NoC0", "noc0"), Component("system.mc", "mc"), Component("system.niu", "niu"),
    Component("system.pcie", "pcie"), Component("system.flashc", "flashc")]

  function Template(cores: nat, l2s: nat, l3s: nat): (cs: seq<Component>)
    ensures |cs| == cores + l2s + l3s + 5
  {
    Numbered("core", cores) + Numbered("L2", l2s) + Numbered("L3", l3s) + TAIL
  }

  // ---------------------------------------------------------------- the reader

  /** The counts and homogeneity flags among the parameters of `system`. */
  datatype Counts = Counts(cores: nat, l1Dirs: nat, l2Dirs: nat, l2s: nat, l3s: nat, nocs: nat,
                           sameCores: bool, sameL1Dirs: bool, sameL2Dirs: bool,
                           sameL2s: bool, sameL3s: bool, sameNocs: bool)

  /** What the template writes into them. */
  function TemplateCounts(cores: nat, l2s: nat, l3s: nat): Counts {
    Counts(cores, 0, 0, l2s, l3s, 1, false, false, false, false, false, true)
  }

  /** Positions of the components read into the core slots, into those of the four counted sections (L1 and
      L2 directories, L2s, L3s), into the NoC slots, and into the mc, niu, pcie and flashc slots. */
  datatype Slots = Slots(cores: seq<nat>, sections: seq<seq<nat>>, nocs: seq<nat>, singles: seq<nat>)

  /** Exit: one of the exit(0) branches; Skipped: `system` has no components. */
  datatype Outcome = Exit | Skipped | Loaded(slots: Slots)

  /** strstr finds the pattern. */
  predicate Contains(s: string, pat: string) { pat <= s || (|s| > 0 && Contains(s[1..], pat)) }

  /** The pattern is found exactly when the text has it at some position. */
  lemma {:induction false} ContainsIff(s: string, pat: string)
    ensures Contains(s, pat) <==> exists i :: 0 <= i <= |s| && pat <= s[i..]
  {
    assert s[0..] == s;
    if |s| > 0 && !(pat <= s) {
      ContainsIff(s[1..], pat);
      if i :| 0 <= i <= |s| && pat <= s[i..] { assert s[1..][i - 1..] == s[i..]; }
      if i :| 0 <= i <= |s[1..]| && pat <= s[1..][i..] { assert s[1..][i..] == s[i + 1..]; }
    }
  }

  /** lo, lo+1, ..., lo+n-1. */
  function Range(lo: nat, n: nat): seq<nat> {
    if n == 0 then [] else Range(lo, n - 1) + [lo + n - 1]
  }

  /** What the reader looks for at a position. */
  datatype Tag = CoreTag | L1DirTag | L2DirTag | L2Tag | L3Tag | NocTag | McTag | NiuTag | PcieTag | FlashcTag

  function Pattern(tag: Tag): string {
    match tag
    case CoreTag => "core" case L1DirTag => "L1Directory" case L2DirTag => "L2Directory"
    case L2Tag => "L2" case L3Tag => "L3" case NocTag => "noc"
    case McTag => "system.mc" case NiuTag => "system.niu"
    case PcieTag => "system.pcie" case FlashcTag => "system.flashc"
  }

  /** Cores, caches and NoCs are recognised by name, the rest by id. */
  predicate ByName(tag: Tag) { tag in {CoreTag, L2Tag, L3Tag, NocTag} }

  predicate Carries(c: Component, tag: Tag) { Contains(if ByName(tag) then c.name else c.id, Pattern(tag)) }

  /** How the reader tells whether a component carries a tag. */
  type Test = (Component, Tag) -> bool

  predicate Tagged(test: Test, cs: seq<Component>, p: nat, tag: Tag) { p < |cs| && test(cs[p], tag) }

  /** The n components from position w on exist and carry the tag in their name (or id). */
  predicate Section(test: Test, cs: seq<Component>, w: nat, n: nat, tag: Tag) {
    n == 0 || (Section(test, cs, w, n - 1, tag) && Tagged(test, cs, w + n - 1, tag))
  }

  lemma {:induction false} SectionMeans(test: Test, cs: seq<Component>, w: nat, n: nat, tag: Tag)
    ensures Section(test, cs, w, n, tag) <==> forall p :: w <= p < w + n ==> Tagged(test, cs, p, tag)
  {
    if n > 0 { SectionMeans(test, cs, w, n - 1, tag); }
  }

  /** A counted section: how many components, and the tag looked for. */
  datatype Group = Group(size: nat, tag: Tag)

  function Number(same: bool, count: nat): nat { if same then 1 else count }

  function Groups(k: Counts): (gs: seq<Group>)
    ensures |gs| == 4
  {
    [Group(Number(k.sameL1Dirs, k.l1Dirs), L1DirTag), Group(Number(k.sameL2Dirs, k.l2Dirs), L2DirTag),
     Group(Number(k.sameL2s, k.l2s), L2Tag), Group(Number(k.sameL3s, k.l3s), L3Tag)]
  }

  /** Last position once the first i groups have been passed. */
  function After(order: nat, gs: seq<Group>, i: nat): nat
    requires i <= |gs|
  {
    if i == 0 then order else After(order, gs, i - 1) + gs[i - 1].size
  }

  /** Every component of the first i groups is where the walk looks for it. */
  predicate GroupsAgree(test: Test, cs: seq<Component>, order: nat, gs: seq<Group>, i: nat)
    requires i <= |gs|
  {
    i == 0 || (GroupsAgree(test, cs, order, gs, i - 1)
               && Section(test, cs, After(order, gs, i - 1) + 1, gs[i - 1].size, gs[i - 1].tag))
  }

  /** The positions the walk visits, group by group. */
  function GroupSlots(order: nat, gs: seq<Group>, i: nat): seq<seq<nat>>
    requires i <= |gs|
  {
    if i == 0 then [] else GroupSlots(order, gs, i - 1) + [Range(After(order, gs, i - 1) + 1, gs[i - 1].size)]
  }

  /** The unsigned number_of_cores-1. */
  function LastCore(k: Counts): nat {
    if k.sameCores then 0 else if k.cores == 0 then TWO_32 - 1 else k.cores - 1
  }

  /** Last position before the NoCs. */
  function LastCache(k: Counts): nat { After(LastCore(k), Groups(k), |Groups(k)|) }

  function NumNocs(k: Counts): nat { Number(k.sameNocs, k.nocs) }

  /** Last position before the single components: NoCs that were not found count as well. */
  function LastNoc(k: Counts): nat { LastCache(k) + NumNocs(k) }

  /** How many NoCs the NoC loop loads in n iterations from position w on. Unlike the other loops it has no
      branch for a wrong name: it stays at a component that is no NoC until its iterations are over. */
  function NocRun(test: Test, cs: seq<Component>, w: nat, n: nat): (m: nat)
    ensures m <= n && Section(test, cs, w, m, NocTag) && (m < n ==> !Tagged(test, cs, w + m, NocTag))
  {
    if n == 0 then 0
    else
      var m := NocRun(test, cs, w, n - 1);
      if m == n - 1 && Tagged(test, cs, w + m, NocTag) then n else m
  }

  /** The NoC loop only insists on a component, whatever its name, where it stops loading. */
  predicate NocsPass(test: Test, cs: seq<Component>, w: nat, n: nat) {
    NocRun(test, cs, w, n) == n || w + NocRun(test, cs, w, n) < |cs|
  }

  const SINGLES: seq<Tag> := [McTag, NiuTag, PcieTag, FlashcTag]

  /** The single components follow the last position; from position 0 the walk does not move on. */
  function SinglePosition(last: nat, i: nat): nat { if last == 0 then 0 else last + 1 + i }

  function SinglePositions(last: nat): (ps: seq<nat>)
    ensures |ps| == 4 && forall i :: 0 <= i < 4 ==> ps[i] == SinglePosition(last, i)
  {
    seq(4, i requires 0 <= i => SinglePosition(last, i))
  }

  predicate SinglesAgree(test: Test, cs: seq<Component>, last: nat) {
    forall i :: 0 <= i < |SINGLES| ==> Tagged(test, cs, SinglePosition(last, i), SINGLES[i])
  }

  /** Cores up to position lastCore, the groups, the NoCs and the single components are where the walk looks. */
  predicate AgreesWith(test: Test, lastCore: nat, gs: seq<Group>, nocs: nat, cs: seq<Component>) {
    var last := After(lastCore, gs, |gs|);
    && Section(test, cs, 0, lastCore + 1, CoreTag) && GroupsAgree(test, cs, lastCore, gs, |gs|)
    && NocsPass(test, cs, last + 1, nocs) && SinglesAgree(test, cs, last + nocs)
  }

  function VisitedWith(test: Test, lastCore: nat, gs: seq<Group>, nocs: nat, cs: seq<Component>): Slots {
    var last := After(lastCore, gs, |gs|);
    Slots(Range(0, lastCore + 1), GroupSlots(lastCore, gs, |gs|),
          Range(last + 1, NocRun(test, cs, last + 1, nocs)), SinglePositions(last + nocs))
  }

  predicate Agrees(test: Test, k: Counts, cs: seq<Component>) {
    AgreesWith(test, LastCore(k), Groups(k), NumNocs(k), cs)
  }

  function Visited(test: Test, k: Counts, cs: seq<Component>): Slots {
    VisitedWith(test, LastCore(k), Groups(k), NumNocs(k), cs)
  }

  /** The whole reader; the components are counted in an unsigned int. */
  method Parse(k: Counts, cs: seq<Component>) returns (r: Outcome)
    requires |cs| < TWO_32
    ensures |cs| == 0 ==> r == Skipped
    ensures |cs| > 0 ==> r == if Agrees(Carries, k, cs) then Loaded(Visited(Carries, k, cs)) else Exit
  {
    if |cs| == 0 { return Skipped; }
    var order := if k.sameCores then 0 else if k.cores == 0 then TWO_32 - 1 else k.cores - 1;
    r := Walk(Carries, order, Groups(k), NumNocs(k), cs);
  }

  /** The walk, for any way of recognising components. */
  method Walk(test: Test, lastCore: nat, gs: seq<Group>, numNocs: nat, cs: seq<Component>) returns (r: Outcome)
    ensures r == if AgreesWith(test, lastCore, gs, numNocs, cs)
                 then Loaded(VisitedWith(test, lastCore, gs, numNocs, cs)) else Exit
  {
    var order := lastCore;
    var ok, cores := ReadSection(test, cs, 0, order + 1, CoreTag);
    if !ok { return Exit; }
    var sections, nocs, singles;
    ok, order, sections := ReadGroups(test, cs, order, gs);
    if !ok { return Exit; }
    ok, nocs := ReadNocs(test, cs, order + 1, numNocs);
    if !ok { return Exit; }
    ok, singles := ReadSingles(test, cs, order + numNocs);
    if !ok { return Exit; }
    r := Loaded(Slots(cores, sections, nocs, singles));
  }

  /** One counted loop of the reader: n components from position w on. */
  method ReadSection(test: Test, cs: seq<Component>, w0: nat, n: nat, tag: Tag) returns (ok: bool, slots: seq<nat>)
    ensures ok == Section(test, cs, w0, n, tag)
    ensures ok ==> slots == Range(w0, n)
  {
    var w := w0;
    slots := [];
    for i := 0 to n
      invariant w == w0 + i && Section(test, cs, w0, i, tag)
      invariant slots == Range(w0, i)
    {
      if w >= |cs| || !test(cs[w], tag) {
        SectionMeans(test, cs, w0, n, tag);
        assert !Tagged(test, cs, w, tag);
        return false, slots;
      }
      slots := slots + [w];
      w := w + 1;
    }
    ok := true;
  }

  /** The four counted loops, one after the other, each starting after the last position so far. */
  method ReadGroups(test: Test, cs: seq<Component>, lastCore: nat, gs: seq<Group>)
      returns (ok: bool, order: nat, sections: seq<seq<nat>>)
    ensures ok == GroupsAgree(test, cs, lastCore, gs, |gs|)
    ensures ok ==> order == After(lastCore, gs, |gs|) && sections == GroupSlots(lastCore, gs, |gs|)
  {
    ok, order, sections := true, lastCore, [];
    var i := 0;
    while i < |gs| && ok
      invariant 0 <= i <= |gs|
      invariant ok == GroupsAgree(test, cs, lastCore, gs, i)
      invariant ok ==> order == After(lastCore, gs, i) && sections == GroupSlots(lastCore, gs, i)
    {
      var g := gs[i];
      var found, slots := ReadSection(test, cs, order + 1, g.size, g.tag);
      GroupStep(test, cs, lastCore, gs, i);
      ok := found;
      order := order + g.size;
      sections := sections + [slots];
      i := i + 1;
    }
    if !ok { GroupsFail(test, cs, lastCore, gs, i, |gs|); }
  }

  lemma GroupStep(test: Test, cs: seq<Component>, order: nat, gs: seq<Group>, i: nat)
    requires i < |gs|
    ensures After(order, gs, i + 1) == After(order, gs, i) + gs[i].size
    ensures GroupsAgree(test, cs, order, gs, i + 1)
            <==> GroupsAgree(test, cs, order, gs, i)
                 && Section(test, cs, After(order, gs, i) + 1, gs[i].size, gs[i].tag)
    ensures GroupSlots(order, gs, i + 1) == GroupSlots(order, gs, i) + [Range(After(order, gs, i) + 1, gs[i].size)]
  {
  }

  /** A failed prefix of groups fails the whole. */
  lemma {:induction false} GroupsFail(test: Test, cs: seq<Component>, order: nat, gs: seq<Group>, i: nat, n: nat)
    requires i <= n <= |gs| && !GroupsAgree(test, cs, order, gs, i)
    ensures !GroupsAgree(test, cs, order, gs, n)
  {
    if i < n { GroupsFail(test, cs, order, gs, i, n - 1); }
  }

  /** The NoC loop: a missing component ends the program, one without the name is passed over in silence. */
  method ReadNocs(test: Test, cs: seq<Component>, w0: nat, n: nat) returns (ok: bool, slots: seq<nat>)
    ensures ok == NocsPass(test, cs, w0, n)
    ensures ok ==> slots == Range(w0, NocRun(test, cs, w0, n))
  {
    var w := w0;
    slots := [];
    for i := 0 to n
      invariant w == w0 + NocRun(test, cs, w0, i) && slots == Range(w0, NocRun(test, cs, w0, i))
      invariant NocsPass(test, cs, w0, i)
    {
      if w >= |cs| {
        NocsStuck(test, cs, w0, i, n);
        return false, slots;
      }
      if test(cs[w], NocTag) {
        slots := slots + [w];
        w := w + 1;
      }
    }
    ok := true;
  }

  /** A position without a NoC is never left. */
  lemma {:induction false} NocsStuck(test: Test, cs: seq<Component>, w: nat, i: nat, n: nat)
    requires i <= n && !Tagged(test, cs, w + NocRun(test, cs, w, i), NocTag)
    ensures NocRun(test, cs, w, n) == NocRun(test, cs, w, i)
  {
    if i < n { NocsStuck(test, cs, w, i, n - 1); }
  }

  /** Every NoC slot that is counted gets loaded exactly when each counted position carries a NoC. */
  lemma AllNocsLoadedIff(test: Test, k: Counts, cs: seq<Component>)
    ensures |Visited(test, k, cs).nocs| == NumNocs(k) <==> Section(test, cs, LastCache(k) + 1, NumNocs(k), NocTag)
  {
    var w, n := LastCache(k) + 1, NumNocs(k);
    var m := NocRun(test, cs, w, n);
    RangeMeans(w, m);
    SectionMeans(test, cs, w, n, NocTag);
    if m < n { assert !Tagged(test, cs, w + m, NocTag); }
  }

  lemma {:induction false} RangeMeans(lo: nat, n: nat)
    ensures |Range(lo, n)| == n && forall i :: 0 <= i < n ==> Range(lo, n)[i] == lo + i
  {
    if n > 0 { RangeMeans(lo, n - 1); }
  }

  /** The single components: each is looked for one position further, once a position has been passed. */
  method ReadSingles(test: Test, cs: seq<Component>, last: nat) returns (ok: bool, slots: seq<nat>)
    ensures ok == SinglesAgree(test, cs, last)
    ensures ok ==> slots == SinglePositions(last)
  {
    var order := last;
    slots := [];
    for i := 0 to |SINGLES|
      invariant order == if i == 0 then last else SinglePosition(last, i - 1)
      invariant |slots| == i && forall j :: 0 <= j < i ==> slots[j] == SinglePosition(last, j)
      invariant forall j :: 0 <= j < i ==> Tagged(test, cs, SinglePosition(last, j), SINGLES[j])
    {
      if order > 0 { order := order + 1; }
      if order >= |cs| || !test(cs[order], SINGLES[i]) {
        assert !Tagged(test, cs, SinglePosition(last, i), SINGLES[i]);
        return false, slots;
      }
      slots := slots + [order];
    }
    ok := true;
  }

  // ---------------------------------------------------------------- writer and reader agree

  /** A pattern found in a text has all its characters there. */
  lemma {:induction false} FoundCharacters(s: string, pat: string, i: nat)
    requires Contains(s, pat) && i < |pat|
    ensures pat[i] in s
  {
    if pat <= s {
      assert s[i] == pat[i];
    } else {
      FoundCharacters(s[1..], pat, i);
    }
  }

  lemma PrefixFound(pat: string, rest: string)
    ensures Contains(pat + rest, pat)
  {
  }

  /** Which names of the template carry which tag. */
  lemma CoreTags(i: nat)
    ensures var name := "core" + Digits(i);
            Contains(name, "core") && !Contains(name, "L2") && !Contains(name, "L3") && !Contains(name, "noc")
  {
    var name := "core" + Digits(i);
    DigitsRead(i);
    PrefixFound("core", Digits(i));
    if Contains(name, "L2") { FoundCharacters(name, "L2", 0); }
    if Contains(name, "L3") { FoundCharacters(name, "L3", 0); }
    if Contains(name, "noc") { FoundCharacters(name, "noc", 0); }
  }

  lemma LevelTags(own: string, other: string, i: nat)
    requires own in {"L2", "L3"} && other in {"L2", "L3"} && own != other
    ensures var name := own + Digits(i);
            Contains(name, own) && !Contains(name, other) && !Contains(name, "core") && !Contains(name, "noc")
  {
    var name := own + Digits(i);
    DigitsRead(i);
    PrefixFound(own, Digits(i));
    OnlyAtStart(own, other, Digits(i));
    if Contains(name, "core") { FoundCharacters(name, "core", 0); }
    if Contains(name, "noc") { FoundCharacters(name, "noc", 0); }
  }

  /** A level name followed by digits contains no other level name. */
  lemma OnlyAtStart(own: string, other: string, ds: string)
    requires own in {"L2", "L3"} && other in {"L2", "L3"} && own != other
    requires forall i :: 0 <= i < |ds| ==> IsDigit(ds[i])
    ensures !Contains(own + ds, other)
  {
    var s := own + ds;
    assert s[1] == own[1] && s[1..] == [own[1]] + ds;
    if Contains(s[1..], other) { FoundCharacters(s[1..], other, 0); }
  }

  lemma NocName()
    ensures Contains("noc0", "noc") && !Contains("noc0", "core") && !Contains("noc0", "L2") && !Contains("noc0", "L3")
  {
    PrefixFound("noc", "0");
    assert "noc" + "0" == "noc0";
    if Contains("noc0", "core") { FoundCharacters("noc0", "core", 2); }
    if Contains("noc0", "L2") { FoundCharacters("noc0", "L2", 0); }
    if Contains("noc0", "L3") { FoundCharacters("noc0", "L3", 0); }
  }

  /** The names of the single components carry no counted tag. */
  lemma SingleNames(name: string, tag: string)
    requires name in {"mc", "niu", "pcie", "flashc"} && tag in {"core", "L2", "L3", "noc"}
    ensures !Contains(name, tag)
  {
    if Contains(name, tag) {
      FoundCharacters(name, tag, 0);
      FoundCharacters(name, tag, 1);
    }
  }

  lemma TemplateAt(n: nat, l2s: nat, l3s: nat, p: nat)
    requires p < n + l2s + l3s + 5
    ensures Template(n, l2s, l3s)[p] ==
            if p < n then Component("system." + "core" + Digits(p), "core" + Digits(p))
            else if p < n + l2s then Component("system." + "L2" + Digits(p - n), "L2" + Digits(p - n))
            else if p < n + l2s + l3s then Component("system." + "L3" + Digits(p - n - l2s), "L3" + Digits(p - n - l2s))
            else TAIL[p - n - l2s - l3s]
  {
  }

  /** The component carries this counted tag and no other. */
  predicate OnlyTag(c: Component, tag: Tag) {
    forall t :: t in {CoreTag, L2Tag, L3Tag, NocTag} ==> (Carries(c, t) <==> t == tag)
  }

  lemma CoreOnly(c: Component, i: nat)
    requires c.name == "core" + Digits(i)
    ensures OnlyTag(c, CoreTag)
  {
    CoreTags(i);
  }

  lemma L2Only(c: Component, i: nat)
    requires c.name == "L2" + Digits(i)
    ensures OnlyTag(c, L2Tag)
  {
    LevelTags("L2", "L3", i);
  }

  lemma L3Only(c: Component, i: nat)
    requires c.name == "L3" + Digits(i)
    ensures OnlyTag(c, L3Tag)
  {
    LevelTags("L3", "L2", i);
  }

  /** The tail: the NoC first, then components without a counted tag. */
  lemma TailOnly(i: nat)
    requires i < 5
    ensures OnlyTag(TAIL[i], if i == 0 then NocTag else McTag)
  {
    TailNames(i);
  }

  /** The counted tag of a position of the template, McTag for the tail behind the NoC. */
  function TagAt(n: nat, l2s: nat, l3s: nat, p: nat): Tag {
    if p < n then CoreTag
    else if p < n + l2s then L2Tag
    else if p < n + l2s + l3s then L3Tag
    else if p == n + l2s + l3s then NocTag else McTag
  }

  /** Position by position, which counted tag the template's component carries. */
  lemma TemplateTags(n: nat, l2s: nat, l3s: nat, p: nat)
    requires p < n + l2s + l3s + 5
    ensures OnlyTag(Template(n, l2s, l3s)[p], TagAt(n, l2s, l3s, p))
  {
    var c := Template(n, l2s, l3s)[p];
    TemplateAt(n, l2s, l3s, p);
    if p < n {
      CoreOnly(c, p);
    } else if p < n + l2s {
      L2Only(c, p - n);
    } else if p < n + l2s + l3s {
      L3Only(c, p - n - l2s);
    } else {
      TailOnly(p - n - l2s - l3s);
    }
  }

  lemma TailNames(i: nat)
    requires i < 5
    ensures !Contains(TAIL[i].name, "core") && !Contains(TAIL[i].name, "L2") && !Contains(TAIL[i].name, "L3")
    ensures Contains(TAIL[i].name, "noc") <==> i == 0
  {
    NocName();
    if i > 0 {
      var name := TAIL[i].name;
      SingleNames(name, "core");
      SingleNames(name, "L2");
      SingleNames(name, "L3");
      SingleNames(name, "noc");
    }
  }

  /** Where the four sections of a template's counts lie. */
  lemma TemplateSlots(n: nat, l2s: nat, l3s: nat)
    requires n > 0
    ensures var k := TemplateCounts(n, l2s, l3s);
            && LastCache(k) + 1 == n + l2s + l3s == LastNoc(k) && NumNocs(k) == 1
            && GroupSlots(n - 1, Groups(k), |Groups(k)|) == [[], [], Range(n, l2s), Range(n + l2s, l3s)]
  {
    var gs := Groups(TemplateCounts(n, l2s, l3s));
    TemplatePositions(n, l2s, l3s);
    assert GroupSlots(n - 1, gs, 1) == [[]];
    assert GroupSlots(n - 1, gs, 2) == [[], []];
    assert GroupSlots(n - 1, gs, 3) == [[], [], Range(n, l2s)];
  }

  lemma TemplatePositions(n: nat, l2s: nat, l3s: nat)
    requires n > 0
    ensures var gs := Groups(TemplateCounts(n, l2s, l3s));
            && After(n - 1, gs, 0) == After(n - 1, gs, 1) == After(n - 1, gs, 2) == n - 1
            && After(n - 1, gs, 3) == n - 1 + l2s && After(n - 1, gs, 4) == n - 1 + l2s + l3s
  {
    var gs := Groups(TemplateCounts(n, l2s, l3s));
    assert After(n - 1, gs, 1) == n - 1;
    assert After(n - 1, gs, 2) == n - 1;
    assert After(n - 1, gs, 3) == n - 1 + l2s;
  }

  /** Which text the reader looks for, and where. */
  lemma CarriesMeans(c: Component)
    ensures Carries(c, CoreTag) <==> Contains(c.name, "core")
    ensures Carries(c, L1DirTag) <==> Contains(c.id, "L1Directory")
    ensures Carries(c, L2DirTag) <==> Contains(c.id, "L2Directory")
    ensures Carries(c, L2Tag) <==> Contains(c.name, "L2")
    ensures Carries(c, L3Tag) <==> Contains(c.name, "L3")
    ensures Carries(c, NocTag) <==> Contains(c.name, "noc")
    ensures Carries(c, McTag) <==> Contains(c.id, "system.mc")
    ensures Carries(c, NiuTag) <==> Contains(c.id, "system.niu")
    ensures Carries(c, PcieTag) <==> Contains(c.id, "system.pcie")
    ensures Carries(c, FlashcTag) <==> Contains(c.id, "system.flashc")
  {
  }

  /** The reader accepts, of any counts and components with a counted position behind the first: in this order,
      from position 0 on and without gaps, the counted cores, L1 directories, L2 directories, L2s and L3s, any
      components in place of the NoCs as long as there is one where they stop, and the four single ones. */
  lemma AgreesMeans(test: Test, k: Counts, cs: seq<Component>)
    requires LastNoc(k) > 0
    ensures var cores := LastCore(k) + 1;
            var d1, d2 := if k.sameL1Dirs then 1 else k.l1Dirs, if k.sameL2Dirs then 1 else k.l2Dirs;
            var l2, l3 := if k.sameL2s then 1 else k.l2s, if k.sameL3s then 1 else k.l3s;
            var noc, nocs := cores + d1 + d2 + l2 + l3, if k.sameNocs then 1 else k.nocs;
            Agrees(test, k, cs) <==>
              && Section(test, cs, 0, cores, CoreTag)
              && Section(test, cs, cores, d1, L1DirTag) && Section(test, cs, cores + d1, d2, L2DirTag)
              && Section(test, cs, cores + d1 + d2, l2, L2Tag) && Section(test, cs, cores + d1 + d2 + l2, l3, L3Tag)
              && NocsOrOther(test, cs, noc, nocs)
              && Tagged(test, cs, noc + nocs, McTag) && Tagged(test, cs, noc + nocs + 1, NiuTag)
              && Tagged(test, cs, noc + nocs + 2, PcieTag) && Tagged(test, cs, noc + nocs + 3, FlashcTag)
  {
    FourGroups(test, cs, LastCore(k), Groups(k));
    FourAfter(LastCore(k), Groups(k));
    RestMeans(test, cs, LastCache(k), NumNocs(k));
  }

  lemma RestMeans(test: Test, cs: seq<Component>, last: nat, nocs: nat)
    requires last + nocs > 0
    ensures NocsPass(test, cs, last + 1, nocs) && SinglesAgree(test, cs, last + nocs) <==>
            && NocsOrOther(test, cs, last + 1, nocs)
            && Tagged(test, cs, last + 1 + nocs, McTag) && Tagged(test, cs, last + 1 + nocs + 1, NiuTag)
            && Tagged(test, cs, last + 1 + nocs + 2, PcieTag) && Tagged(test, cs, last + 1 + nocs + 3, FlashcTag)
  {
    NocsMean(test, cs, last + 1, nocs);
    SinglesMean(test, cs, last + nocs);
  }

  /** Where the counted sections are loaded from. */
  lemma SectionsMean(test: Test, k: Counts, cs: seq<Component>)
    ensures var cores := LastCore(k) + 1;
            var d1, d2 := if k.sameL1Dirs then 1 else k.l1Dirs, if k.sameL2Dirs then 1 else k.l2Dirs;
            var l2, l3 := if k.sameL2s then 1 else k.l2s, if k.sameL3s then 1 else k.l3s;
            Visited(test, k, cs).sections == [Range(cores, d1), Range(cores + d1, d2), Range(cores + d1 + d2, l2),
                                              Range(cores + d1 + d2 + l2, l3)]
  {
    FourSlots(LastCore(k), Groups(k));
  }

  /** Where everything else is loaded from. */
  lemma OtherSlotsMean(test: Test, k: Counts, cs: seq<Component>)
    requires LastNoc(k) > 0
    ensures var v := Visited(test, k, cs);
            && v.cores == Range(0, LastCore(k) + 1)
            && v.nocs == Range(LastCache(k) + 1, NocRun(test, cs, LastCache(k) + 1, NumNocs(k)))
            && v.singles == Range(LastNoc(k) + 1, 4)
  {
    FourSingles(LastNoc(k));
  }

  lemma LastPositionsMean(k: Counts)
    ensures LastCache(k) == LastCore(k)
              + (if k.sameL1Dirs then 1 else k.l1Dirs) + (if k.sameL2Dirs then 1 else k.l2Dirs)
              + (if k.sameL2s then 1 else k.l2s) + if k.sameL3s then 1 else k.l3s
    ensures LastNoc(k) == LastCache(k) + if k.sameNocs then 1 else k.nocs
  {
    FourAfter(LastCore(k), Groups(k));
  }

  lemma FourSlots(o: nat, gs: seq<Group>)
    requires |gs| == 4
    ensures var a := o + 1 + gs[0].size; var b := a + gs[1].size; var c := b + gs[2].size;
            GroupSlots(o, gs, |gs|)
            == [Range(o + 1, gs[0].size), Range(a, gs[1].size), Range(b, gs[2].size), Range(c, gs[3].size)]
  {
    assert After(o, gs, 0) == o && After(o, gs, 1) == o + gs[0].size;
    assert After(o, gs, 2) == o + gs[0].size + gs[1].size;
    assert After(o, gs, 3) == o + gs[0].size + gs[1].size + gs[2].size;
    assert GroupSlots(o, gs, 1) == [Range(o + 1, gs[0].size)];
    assert GroupSlots(o, gs, 2) == GroupSlots(o, gs, 1) + [Range(After(o, gs, 1) + 1, gs[1].size)];
    assert GroupSlots(o, gs, 3) == GroupSlots(o, gs, 2) + [Range(After(o, gs, 2) + 1, gs[2].size)];
  }

  /** The number of cores read: one if they are all the same; without cores the unsigned difference wraps. */
  lemma LastCoreMeans(k: Counts)
    ensures LastCore(k) + 1 == if k.sameCores then 1 else if k.cores > 0 then k.cores else 0x1_0000_0000
  {
  }

  /** Four groups, one behind the other. */
  lemma FourGroups(test: Test, cs: seq<Component>, o: nat, gs: seq<Group>)
    requires |gs| == 4
    ensures var a := o + 1 + gs[0].size; var b := a + gs[1].size; var c := b + gs[2].size;
            GroupsAgree(test, cs, o, gs, |gs|) <==>
              && Section(test, cs, o + 1, gs[0].size, gs[0].tag) && Section(test, cs, a, gs[1].size, gs[1].tag)
              && Section(test, cs, b, gs[2].size, gs[2].tag) && Section(test, cs, c, gs[3].size, gs[3].tag)
  {
    GroupStep(test, cs, o, gs, 0);
    GroupStep(test, cs, o, gs, 1);
    GroupStep(test, cs, o, gs, 2);
    GroupStep(test, cs, o, gs, 3);
  }

  lemma FourAfter(o: nat, gs: seq<Group>)
    requires |gs| == 4
    ensures After(o, gs, |gs|) == o + gs[0].size + gs[1].size + gs[2].size + gs[3].size
  {
    assert After(o, gs, 1) == o + gs[0].size;
    assert After(o, gs, 2) == o + gs[0].size + gs[1].size;
    assert After(o, gs, 3) == o + gs[0].size + gs[1].size + gs[2].size;
  }

  /** n NoCs from position w on, or fewer and then some other component. */
  ghost predicate NocsOrOther(test: Test, cs: seq<Component>, w: nat, n: nat) {
    Section(test, cs, w, n, NocTag)
    || exists m :: 0 <= m < n && Section(test, cs, w, m, NocTag) && w + m < |cs| && !test(cs[w + m], NocTag)
  }

  lemma NocsMean(test: Test, cs: seq<Component>, w: nat, n: nat)
    ensures NocsPass(test, cs, w, n) <==> NocsOrOther(test, cs, w, n)
  {
    var m := NocRun(test, cs, w, n);
    SectionMeans(test, cs, w, n, NocTag);
    if m < n { assert !Tagged(test, cs, w + m, NocTag); }
    if m' :| 0 <= m' < n && Section(test, cs, w, m', NocTag) && w + m' < |cs| && !test(cs[w + m'], NocTag) {
      SectionMeans(test, cs, w, m, NocTag);
      SectionMeans(test, cs, w, m', NocTag);
      assert !Tagged(test, cs, w + m', NocTag);
    }
  }

  lemma SinglesMean(test: Test, cs: seq<Component>, last: nat)
    requires last > 0
    ensures SinglesAgree(test, cs, last) <==>
            && Tagged(test, cs, last + 1, McTag) && Tagged(test, cs, last + 2, NiuTag)
            && Tagged(test, cs, last + 3, PcieTag) && Tagged(test, cs, last + 4, FlashcTag)
  {
    if SinglesAgree(test, cs, last) {
      assert Tagged(test, cs, SinglePosition(last, 0), SINGLES[0]);
      assert Tagged(test, cs, SinglePosition(last, 1), SINGLES[1]);
      assert Tagged(test, cs, SinglePosition(last, 2), SINGLES[2]);
      assert Tagged(test, cs, SinglePosition(last, 3), SINGLES[3]);
    }
  }

  /** What the reader requires for a template's counts, of any components. */
  lemma TemplateDemands(test: Test, cs: seq<Component>, n: nat, l2s: nat, l3s: nat)
    requires n > 0
    ensures Agrees(test, TemplateCounts(n, l2s, l3s), cs) <==>
              && Section(test, cs, 0, n, CoreTag) && Section(test, cs, n, l2s, L2Tag)
              && Section(test, cs, n + l2s, l3s, L3Tag)
              && n + l2s + l3s < |cs| && SinglesAgree(test, cs, n + l2s + l3s)
  {
    TemplateSlots(n, l2s, l3s);
    TemplateGroups(test, cs, n, l2s, l3s);
    OneNoc(test, cs, n + l2s + l3s);
  }

  lemma TemplateGroups(test: Test, cs: seq<Component>, n: nat, l2s: nat, l3s: nat)
    requires n > 0
    ensures var gs := Groups(TemplateCounts(n, l2s, l3s));
            GroupsAgree(test, cs, n - 1, gs, |gs|)
            <==> Section(test, cs, n, l2s, L2Tag) && Section(test, cs, n + l2s, l3s, L3Tag)
  {
    var gs := Groups(TemplateCounts(n, l2s, l3s));
    TemplatePositions(n, l2s, l3s);
    assert GroupsAgree(test, cs, n - 1, gs, 1);
    assert GroupsAgree(test, cs, n - 1, gs, 2);
    assert GroupsAgree(test, cs, n - 1, gs, 3) <==> Section(test, cs, n, l2s, L2Tag);
  }

  lemma OneNoc(test: Test, cs: seq<Component>, w: nat)
    ensures NocRun(test, cs, w, 1) == if Tagged(test, cs, w, NocTag) then 1 else 0
    ensures NocsPass(test, cs, w, 1) <==> w < |cs|
  {
    assert NocRun(test, cs, w, 0) == 0;
  }

  lemma SingleIds(i: nat)
    requires i < 4
    ensures Carries(TAIL[i + 1], SINGLES[i])
  {
    var id := TAIL[i + 1].id;
    assert id == Pattern(SINGLES[i]) && id + "" == id;
    PrefixFound(id, "");
  }

  /** An id names the memory controller only right behind "system.". */
  lemma McInId(rest: string)
    requires 'y' !in rest
    ensures Contains("system." + rest, "system.mc") <==> "mc" <= rest
  {
    var id, pat := "system." + rest, "system." + "mc";
    assert pat == "system.mc";
    SystemPrefix(rest, "mc");
    if !(pat <= id) && Contains(id, pat) {
      var tail := id[1..];
      assert tail[0] == 'y' && tail[1..] == "stem." + rest;
      assert Contains(tail, pat);
      assert tail[0] != pat[0];
      FoundCharacters(tail[1..], pat, 1);
    }
  }

  lemma SystemPrefix(rest: string, pat: string)
    ensures "system." + pat <= "system." + rest <==> pat <= rest
  {
    assert ("system." + rest)[7..] == rest && ("system." + pat)[7..] == pat;
    if "system." + pat <= "system." + rest {
      forall i | 0 <= i < |pat| ensures pat[i] == rest[i] {
        assert ("system." + pat)[7 + i] == ("system." + rest)[7 + i];
      }
    }
  }

  /** What follows "system." in an id. */
  function IdRest(n: nat, l2s: nat, l3s: nat, p: nat): string {
    if p < n then "core" + Digits(p)
    else if p < n + l2s then "L2" + Digits(p - n)
    else if p < n + l2s + l3s then "L3" + Digits(p - n - l2s)
    else if p < n + l2s + l3s + 5 then ["NoC0", "mc", "niu", "pcie", "flashc"][p - n - l2s - l3s]
    else ""
  }

  lemma TemplateIds(n: nat, l2s: nat, l3s: nat, p: nat)
    requires p < n + l2s + l3s + 5
    ensures Template(n, l2s, l3s)[p].id == "system." + IdRest(n, l2s, l3s, p)
  {
    TemplateAt(n, l2s, l3s, p);
    if p < n {
      assert "system." + "core" + Digits(p) == "system." + ("core" + Digits(p));
    } else if p < n + l2s {
      assert "system." + "L2" + Digits(p - n) == "system." + ("L2" + Digits(p - n));
    } else if p < n + l2s + l3s {
      assert "system." + "L3" + Digits(p - n - l2s) == "system." + ("L3" + Digits(p - n - l2s));
    }
  }

  lemma IdRests(n: nat, l2s: nat, l3s: nat, p: nat)
    ensures 'y' !in IdRest(n, l2s, l3s, p)
    ensures "mc" <= IdRest(n, l2s, l3s, p) <==> p == n + l2s + l3s + 1
  {
    var rest := IdRest(n, l2s, l3s, p);
    if p < n + l2s + l3s { DigitsRead(if p < n then p else if p < n + l2s then p - n else p - n - l2s); }
    if p < n + l2s + l3s + 5 && p != n + l2s + l3s + 1 { assert rest[0] != 'm'; }
  }

  /** Only the memory controller's id is taken for one. */
  lemma McPosition(n: nat, l2s: nat, l3s: nat, p: nat)
    ensures Tagged(Carries, Template(n, l2s, l3s), p, McTag) <==> p == n + l2s + l3s + 1
  {
    if p < n + l2s + l3s + 5 {
      TemplateIds(n, l2s, l3s, p);
      IdRests(n, l2s, l3s, p);
      McInId(IdRest(n, l2s, l3s, p));
    }
  }

  /** A section of a tag that only the positions lo..hi-1 carry. */
  lemma SectionInside(test: Test, cs: seq<Component>, w: nat, n: nat, tag: Tag, lo: nat, hi: nat)
    requires forall p :: 0 <= p ==> (Tagged(test, cs, p, tag) <==> lo <= p < hi)
    ensures Section(test, cs, w, n, tag) <==> n == 0 || (lo <= w && w + n <= hi)
  {
    SectionMeans(test, cs, w, n, tag);
    if Section(test, cs, w, n, tag) && n > 0 {
      assert Tagged(test, cs, w, tag) && Tagged(test, cs, w + n - 1, tag);
    }
  }

  /** First position and one past the last of a template's components with a tag. */
  function Extent(n: nat, l2s: nat, l3s: nat, tag: Tag): (nat, nat) {
    if tag == CoreTag then (0, n)
    else if tag == L2Tag then (n, n + l2s)
    else if tag == L3Tag then (n + l2s, n + l2s + l3s)
    else (n + l2s + l3s, n + l2s + l3s + 1)
  }

  /** The test finds in cs the tags of a template, in their places. */
  ghost predicate Recognised(test: Test, cs: seq<Component>, n: nat, l2s: nat, l3s: nat) {
    && |cs| == n + l2s + l3s + 5
    && (forall p: nat, tag: Tag :: ByName(tag) ==>
          (Tagged(test, cs, p, tag) <==> Extent(n, l2s, l3s, tag).0 <= p < Extent(n, l2s, l3s, tag).1))
    && (forall i :: 0 <= i < |SINGLES| ==> Tagged(test, cs, n + l2s + l3s + 1 + i, SINGLES[i]))
    && (forall p: nat :: Tagged(test, cs, p, McTag) ==> p == n + l2s + l3s + 1)
  }

  lemma TemplateRecognised(n: nat, l2s: nat, l3s: nat)
    ensures Recognised(Carries, Template(n, l2s, l3s), n, l2s, l3s)
  {
    var cs := Template(n, l2s, l3s);
    forall p: nat, tag: Tag | ByName(tag)
      ensures Tagged(Carries, cs, p, tag) <==> Extent(n, l2s, l3s, tag).0 <= p < Extent(n, l2s, l3s, tag).1
    {
      if p < |cs| { TemplateTags(n, l2s, l3s, p); }
    }
    forall i | 0 <= i < |SINGLES| ensures Tagged(Carries, cs, n + l2s + l3s + 1 + i, SINGLES[i]) {
      TemplateAt(n, l2s, l3s, n + l2s + l3s + 1 + i);
      SingleIds(i);
    }
    forall p: nat | Tagged(Carries, cs, p, McTag) ensures p == n + l2s + l3s + 1 { McPosition(n, l2s, l3s, p); }
  }

  /** The reader accepts a template's components exactly when its counts are the template's own and there is
      a core: every disagreement ends in one of the exit branches, although none of them looks at the NoC's
      name. */
  lemma LayoutAgreesIff(n: nat, l2s: nat, l3s: nat, n': nat, l2s': nat, l3s': nat)
    requires |Template(n', l2s', l3s')| < TWO_32
    ensures Agrees(Carries, TemplateCounts(n, l2s, l3s), Template(n', l2s', l3s'))
            <==> n > 0 && n == n' && l2s == l2s' && l3s == l3s'
  {
    if n == 0 {
      NoCoreFails(Carries, Template(n', l2s', l3s'), l2s, l3s);
    } else {
      TemplateRecognised(n', l2s', l3s');
      RecognisedIff(Carries, Template(n', l2s', l3s'), n, l2s, l3s, n', l2s', l3s');
    }
  }

  /** Without cores the reader wants 2^32 of them. */
  lemma NoCoreFails(test: Test, cs: seq<Component>, l2s: nat, l3s: nat)
    requires |cs| < TWO_32
    ensures !Agrees(test, TemplateCounts(0, l2s, l3s), cs)
  {
    SectionMeans(test, cs, 0, TWO_32, CoreTag);
    assert !Tagged(test, cs, TWO_32 - 1, CoreTag);
  }

  lemma RecognisedIff(test: Test, cs: seq<Component>, n: nat, l2s: nat, l3s: nat, n': nat, l2s': nat, l3s': nat)
    requires n > 0 && Recognised(test, cs, n', l2s', l3s')
    ensures Agrees(test, TemplateCounts(n, l2s, l3s), cs) <==> n == n' && l2s == l2s' && l3s == l3s'
  {
    TemplateDemands(test, cs, n, l2s, l3s);
    SectionInside(test, cs, 0, n, CoreTag, 0, n');
    SectionInside(test, cs, n, l2s, L2Tag, n', n' + l2s');
    SectionInside(test, cs, n + l2s, l3s, L3Tag, n' + l2s', n' + l2s' + l3s');
    LastPosition(test, cs, n', l2s', l3s', n + l2s + l3s);
    SameExtents(n, l2s, l3s, n', l2s', l3s');
  }

  /** The single components are where the template has them only behind its last NoC. */
  lemma LastPosition(test: Test, cs: seq<Component>, n: nat, l2s: nat, l3s: nat, last: nat)
    requires last > 0 && Recognised(test, cs, n, l2s, l3s)
    ensures SinglesAgree(test, cs, last) <==> last == n + l2s + l3s
  {
    if SinglesAgree(test, cs, last) {
      assert Tagged(test, cs, SinglePosition(last, 0), SINGLES[0]);
    }
    if last == n + l2s + l3s {
      forall i | 0 <= i < |SINGLES| ensures Tagged(test, cs, SinglePosition(last, i), SINGLES[i]) {
        assert Tagged(test, cs, n + l2s + l3s + 1 + i, SINGLES[i]);
      }
    }
  }

  lemma SameExtents(n: nat, a: nat, b: nat, n': nat, a': nat, b': nat)
    requires n > 0
    ensures n <= n' && (a == 0 || (n' <= n && n + a <= n' + a'))
            && (b == 0 || (n' + a' <= n + a && n + a + b <= n' + a' + b'))
            && n + a + b == n' + a' + b'
            <==> n == n' && a == a' && b == b'
  {
  }

  /** A NoC under another name is not missed: whatever the reader accepts, it also accepts with something
      else in place of the first NoC, and loads everything but the NoCs. */
  lemma RenamedNocIsSkipped(test: Test, k: Counts, cs: seq<Component>, other: Component)
    requires Agrees(test, k, cs) && NumNocs(k) > 0 && LastCache(k) + 1 < |cs| && !test(other, NocTag)
    ensures var cs' := cs[LastCache(k) + 1 := other];
            Agrees(test, k, cs') && Visited(test, k, cs') == Visited(test, k, cs).(nocs := [])
  {
    var p, gs := LastCache(k) + 1, Groups(k);
    var cs' := cs[p := other];
    AfterGrows(LastCore(k), gs, 0, |gs|);
    SectionKept(test, cs, p, other, 0, LastCore(k) + 1, CoreTag);
    GroupsKept(test, cs, p, other, LastCore(k), gs, |gs|);
    NocsStuck(test, cs', p, 0, NumNocs(k));
    SinglesKept(test, cs, p, other, LastNoc(k));
  }

  /** The single components lie behind a replaced position that is not behind the last one. */
  lemma SinglesKept(test: Test, cs: seq<Component>, p: nat, c: Component, last: nat)
    requires 0 < p <= last && p < |cs| && SinglesAgree(test, cs, last)
    ensures SinglesAgree(test, cs[p := c], last)
  {
    forall i | 0 <= i < |SINGLES| ensures Tagged(test, cs[p := c], SinglePosition(last, i), SINGLES[i]) {
      assert Tagged(test, cs, SinglePosition(last, i), SINGLES[i]);
    }
  }

  lemma {:induction false} AfterGrows(order: nat, gs: seq<Group>, i: nat, n: nat)
    requires i <= n <= |gs|
    ensures After(order, gs, i) <= After(order, gs, n)
  {
    if i < n { AfterGrows(order, gs, i, n - 1); }
  }

  /** A section that ends before a replaced position. */
  lemma {:induction false} SectionKept(test: Test, cs: seq<Component>, p: nat, c: Component, w: nat, n: nat, tag: Tag)
    requires w + n <= p < |cs|
    ensures Section(test, cs[p := c], w, n, tag) <==> Section(test, cs, w, n, tag)
  {
    if n > 0 { SectionKept(test, cs, p, c, w, n - 1, tag); }
  }

  lemma {:induction false} GroupsKept(test: Test, cs: seq<Component>, p: nat, c: Component, order: nat,
                                      gs: seq<Group>, n: nat)
    requires n <= |gs| && After(order, gs, n) < p < |cs|
    ensures GroupsAgree(test, cs[p := c], order, gs, n) <==> GroupsAgree(test, cs, order, gs, n)
  {
    if n > 0 {
      AfterGrows(order, gs, n - 1, n);
      GroupsKept(test, cs, p, c, order, gs, n - 1);
      SectionKept(test, cs, p, c, After(order, gs, n - 1) + 1, gs[n - 1].size, gs[n - 1].tag);
    }
  }

  lemma {:induction false} RangeConcat(lo: nat, n: nat, m: nat)
    ensures Range(lo, n) + Range(lo + n, m) == Range(lo, n + m)
  {
    if m > 0 { RangeConcat(lo, n, m - 1); }
  }

  function Concat(ss: seq<seq<nat>>): seq<nat> {
    if |ss| == 0 then [] else ss[0] + Concat(ss[1..])
  }

  lemma ConcatSections(a: seq<nat>, b: seq<nat>)
    ensures Concat([[], [], a, b]) == a + b
  {
    assert Concat([b]) == b;
    assert Concat([a, b]) == a + b;
    assert Concat([[], a, b]) == a + b;
  }

  /** The reader reads every component of the template once, in the order in which it was written, each
      into a slot of its own kind. */
  lemma ReadInWritingOrder(n: nat, l2s: nat, l3s: nat)
    requires n > 0
    ensures var cs := Template(n, l2s, l3s); var v := Visited(Carries, TemplateCounts(n, l2s, l3s), cs);
            && v.cores == Range(0, n)
            && v.sections == [[], [], Range(n, l2s), Range(n + l2s, l3s)]
            && v.nocs == Range(n + l2s + l3s, 1)
            && v.cores + Concat(v.sections) + v.nocs + v.singles == Range(0, |cs|)
  {
    var cs, p := Template(n, l2s, l3s), n + l2s + l3s;
    TemplateSlots(n, l2s, l3s);
    TemplateTags(n, l2s, l3s, p);
    OneNoc(Carries, cs, p);
    ConcatSections(Range(n, l2s), Range(n + l2s, l3s));
    FourSingles(p);
    FiveRanges(n, l2s, l3s);
  }

  lemma FourSingles(last: nat)
    requires last > 0
    ensures SinglePositions(last) == Range(last + 1, 4)
  {
    assert Range(last + 1, 1) == [last + 1];
    assert Range(last + 1, 2) == [last + 1, last + 2];
    assert Range(last + 1, 3) == [last + 1, last + 2, last + 3];
  }

  lemma FiveRanges(n: nat, l2s: nat, l3s: nat)
    ensures Range(0, n) + (Range(n, l2s) + Range(n + l2s, l3s)) + Range(n + l2s + l3s, 1) + Range(n + l2s + l3s + 1, 4)
            == Range(0, n + l2s + l3s + 5)
  {
    RangeConcat(n, l2s, l3s);
    RangeConcat(n, l2s + l3s, 1);
    RangeConcat(0, n, l2s + l3s + 1);
    RangeConcat(0, n + l2s + l3s + 1, 4);
  }
}
