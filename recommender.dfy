/**
 * app.py's rule-based recommender: role canonicalisation against the role
 * catalogue, risk tags derived from equipment and incidents, the optional
 * modules those tags pull in, the policy checklist and the quiz. The
 * module catalogue, the policy texts, the role catalogue and the
 * equipment map are loaded from files at start-up; here they are one
 * `Catalog` value. Python dicts are kept as lists of entries in insertion
 * order, because the recommender iterates over them.
 */
module Recommender {
  import opened Wrappers
  import opened Text
  import opened Lex

  /** An entry of `MODULES`. */
  datatype ModuleDef = ModuleDef(id: string, title: string, source: string, riskTags: seq<string>)

  /** An entry of `CATALOG["roles"]`; a missing list is `[]`. */
  datatype RoleDef = RoleDef(name: string, aliases: seq<string>, required: seq<string>, optional: seq<string>, defaultTags: seq<string>)

  /**
   * `MODULES`, `POLICIES` (policy file to its non-blank stripped lines),
   * `CATALOG["roles"]` and `EQUIP_MAP`.
   */
  datatype Catalog = Catalog(
    modules: seq<ModuleDef>,
    policies: map<string, seq<string>>,
    roles: seq<RoleDef>,
    equipMap: map<string, seq<string>>)

  function Ids(modules: seq<ModuleDef>): (ids: seq<string>)
    ensures |ids| == |modules|
    ensures forall i :: 0 <= i < |modules| ==> ids[i] == modules[i].id
  {
    seq(|modules|, i requires 0 <= i < |modules| => modules[i].id)
  }

  /** `MODULES[mid]`. */
  function ModuleOf(modules: seq<ModuleDef>, mid: string): (m: ModuleDef)
    requires mid in Ids(modules)
    ensures m in modules && m.id == mid
  {
    modules[IndexOf(Ids(modules), mid)]
  }

  /** `POLICIES.get(src, [])`. */
  function PolicyLines(policies: map<string, seq<string>>, src: string): seq<string> {
    if src in policies then policies[src] else []
  }

  predicate IsBullet(line: string) {
    StartsWith(line, "- ")
  }

  /** `line[2:].strip()` of a bullet line. */
  function BulletText(line: string): string
    requires IsBullet(line)
  {
    Strip(line[2..])
  }

  /** `[ln[2:].strip() for ln in lines if ln.startswith("- ")]`. */
  function Bullets(lines: seq<string>): seq<string> {
    if lines == [] then []
    else
      var last := lines[|lines| - 1];
      Bullets(lines[..|lines| - 1]) + if IsBullet(last) then [BulletText(last)] else []
  }

  /** The bullets are exactly the texts of the bullet lines. */
  lemma {:induction false} BulletsSpec(lines: seq<string>)
    ensures |Bullets(lines)| <= |lines|
    ensures forall x :: x in Bullets(lines) <==>
      exists i :: 0 <= i < |lines| && IsBullet(lines[i]) && x == BulletText(lines[i])
  {
    if lines != [] {
      var n := |lines| - 1;
      BulletsSpec(lines[..n]);
      forall x ensures x in Bullets(lines) <==>
        exists i :: 0 <= i < |lines| && IsBullet(lines[i]) && x == BulletText(lines[i])
      {
        if x in Bullets(lines[..n]) {
          var i :| 0 <= i < n && IsBullet(lines[..n][i]) && x == BulletText(lines[..n][i]);
          assert lines[i] == lines[..n][i];
        }
        if exists i :: 0 <= i < |lines| && IsBullet(lines[i]) && x == BulletText(lines[i]) {
          var i :| 0 <= i < |lines| && IsBullet(lines[i]) && x == BulletText(lines[i]);
          if i < n { assert lines[..n][i] == lines[i]; }
        }
      }
    }
  }

  /** The bullets of module `mid`'s policy text. */
  function ModuleBullets(cat: Catalog, mid: string): seq<string>
    requires mid in Ids(cat.modules)
  {
    Bullets(PolicyLines(cat.policies, ModuleOf(cat.modules, mid).source))
  }

  predicate AllKnown(cat: Catalog, ids: seq<string>) {
    forall i :: 0 <= i < |ids| ==> ids[i] in Ids(cat.modules)
  }

  /** The bullet texts of the first `n` selected modules, module by module. */
  function LinesUpTo(cat: Catalog, selected: seq<string>, n: nat): seq<string>
    requires AllKnown(cat, selected) && n <= |selected|
  {
    if n == 0 then []
    else LinesUpTo(cat, selected, n - 1) + ModuleBullets(cat, selected[n - 1])
  }

  /** The `lines` of `build_checklist`. */
  function ChecklistLines(cat: Catalog, selected: seq<string>): seq<string>
    requires AllKnown(cat, selected)
  {
    LinesUpTo(cat, selected, |selected|)
  }

  /** The reference result of `build_checklist`: the first six distinct bullet texts. */
  function ChecklistSpec(cat: Catalog, selected: seq<string>): seq<string>
    requires AllKnown(cat, selected)
  {
    Take(Distinct(ChecklistLines(cat, selected)), 6)
  }

  /** The inner loop of `build_checklist`: the bullet texts of one policy. */
  method PolicyBullets(policy: seq<string>) returns (bullets: seq<string>)
    ensures bullets == Bullets(policy)
  {
    bullets := [];
    var j := 0;
    while j < |policy|
      invariant 0 <= j <= |policy|
      invariant bullets == Bullets(policy[..j])
    {
      var line := policy[j];
      assert policy[..j + 1][..j] == policy[..j];
      if StartsWith(line, "- ") {
        bullets := bullets + [Strip(line[2..])];
      }
      j := j + 1;
    }
    assert policy[..j] == policy;
  }

  /** The `if ln not in out` loop of `build_checklist`: first occurrences, in order. */
  method FirstOccurrences(lines: seq<string>) returns (out: seq<string>)
    ensures out == Distinct(lines)
  {
    out := [];
    var k := 0;
    while k < |lines|
      invariant 0 <= k <= |lines|
      invariant out == Distinct(lines[..k])
    {
      assert lines[..k + 1][..k] == lines[..k];
      if lines[k] !in out {
        out := out + [lines[k]];
      }
      k := k + 1;
    }
    assert lines[..k] == lines;
  }

  /** The bullet texts of the policy file of module `mid`. */
  method ReadBullets(cat: Catalog, mid: string) returns (bullets: seq<string>)
    requires mid in Ids(cat.modules)
    ensures bullets == ModuleBullets(cat, mid)
  {
    var src := ModuleOf(cat.modules, mid).source;
    bullets := PolicyBullets(PolicyLines(cat.policies, src));
  }

  /** The first loop of `build_checklist`: the bullet texts of the selected modules, in order. */
  method CollectLines(cat: Catalog, selectedIds: seq<string>) returns (lines: seq<string>)
    requires AllKnown(cat, selectedIds)
    ensures lines == ChecklistLines(cat, selectedIds)
  {
    lines := [];
    var i := 0;
    while i < |selectedIds|
      invariant 0 <= i <= |selectedIds|
      invariant lines == LinesUpTo(cat, selectedIds, i)
    {
      var bullets := ReadBullets(cat, selectedIds[i]);
      lines := lines + bullets;
      i := i + 1;
    }
  }

  /** `build_checklist`. */
  method BuildChecklist(cat: Catalog, selectedIds: seq<string>) returns (checklist: seq<string>)
    requires AllKnown(cat, selectedIds)
    ensures checklist == ChecklistSpec(cat, selectedIds)
  {
    var lines := CollectLines(cat, selectedIds);
    var out := FirstOccurrences(lines);
    checklist := Take(out, 6);
  }

  /**
   * At most six entries, no duplicates, each a bullet text of a selected
   * module, and, short of six, every such text.
   */
  lemma ChecklistProperties(cat: Catalog, selected: seq<string>)
    requires AllKnown(cat, selected)
    ensures |ChecklistSpec(cat, selected)| <= 6
    ensures NoDuplicates(ChecklistSpec(cat, selected))
    ensures forall x :: x in ChecklistSpec(cat, selected) ==> x in ChecklistLines(cat, selected)
    ensures |ChecklistSpec(cat, selected)| < 6 ==>
      forall x :: x in ChecklistLines(cat, selected) ==> x in ChecklistSpec(cat, selected)
  {
    var d := Distinct(ChecklistLines(cat, selected));
    DistinctSpec(ChecklistLines(cat, selected));
    var r := ChecklistSpec(cat, selected);
    assert r == d[..|r|];
    forall x | x in r ensures x in ChecklistLines(cat, selected) {
      assert x in d;
    }
    if |r| < 6 {
      assert r == d;
    }
  }

  /** A text is a line of the first `n` modules exactly when it is a bullet of one of them. */
  lemma {:induction false} LinesUpToSpec(cat: Catalog, selected: seq<string>, n: nat)
    requires AllKnown(cat, selected) && n <= |selected|
    ensures forall x :: x in LinesUpTo(cat, selected, n) <==>
      exists i :: 0 <= i < n && x in ModuleBullets(cat, selected[i])
  {
    if n > 0 {
      LinesUpToSpec(cat, selected, n - 1);
    }
  }

  /** Each checklist line comes from a bullet line of a selected module's policy, and each such bullet is a line. */
  lemma ChecklistLinesFromPolicies(cat: Catalog, selected: seq<string>)
    requires AllKnown(cat, selected)
    ensures forall x :: x in ChecklistLines(cat, selected) <==>
      exists i :: 0 <= i < |selected| && x in ModuleBullets(cat, selected[i])
  {
    LinesUpToSpec(cat, selected, |selected|);
  }

  // ---------------------------------------------------------------------
  // Quiz

  /** One quiz question; `correct` is the letter of the right option. */
  datatype Quiz = Quiz(q: string, a: string, b: string, c: string, correct: char, why: string, sourceId: string)

  /** `random.shuffle` of a three-element list, as the positions the options end up taking. */
  predicate IsShuffle(p: seq<nat>) {
    |p| == 3 && p[0] < 3 && p[1] < 3 && p[2] < 3 && p[0] != p[1] && p[0] != p[2] && p[1] != p[2]
  }

  /** `os.path.basename`: the text after the last `/`. */
  function Basename(path: string): (b: string)
    ensures '/' !in b
    ensures |b| <= |path| && b == path[|path| - |b|..]
  {
    if path == [] || path[|path| - 1] == '/' then []
    else Basename(path[..|path| - 1]) + [path[|path| - 1]]
  }

  /** `(bullets[1:3] + ["Not applicable"])[:2]`. */
  function Distractors(bullets: seq<string>): (d: seq<string>)
    requires |bullets| >= 2
    ensures |d| == 2 && d[0] == bullets[1]
    ensures d[1] == if |bullets| >= 3 then bullets[2] else "Not applicable"
  {
    Take(Take(bullets[1..], 2) + ["Not applicable"], 2)
  }

  /** The option a letter names. */
  function OptionAt(q: Quiz, letter: char): string {
    if letter == 'a' then q.a else if letter == 'b' then q.b else q.c
  }

  /** The three options in shuffled order: option `opts[shuffle[p]]` lands at position `p`. */
  function Arrange<T>(opts: seq<T>, shuffle: seq<nat>): (r: seq<T>)
    requires |opts| == 3 && IsShuffle(shuffle)
    ensures |r| == 3
  {
    [opts[shuffle[0]], opts[shuffle[1]], opts[shuffle[2]]]
  }

  /** Shuffling keeps the options, each as often as before. */
  lemma ArrangePermutes<T>(opts: seq<T>, shuffle: seq<nat>)
    requires |opts| == 3 && IsShuffle(shuffle)
    ensures multiset(Arrange(opts, shuffle)) == multiset(opts)
    ensures opts[0] in Arrange(opts, shuffle)
  {
    var p := Arrange(opts, shuffle);
    var a, b, c := opts[0], opts[1], opts[2];
    assert opts == [a, b, c];
    var s := shuffle;
    if s[0] == 0 {
      if s[1] == 1 { assert p == [a, b, c]; }
      else { assert p == [a, c, b]; SwapLast(a, b, c); }
    } else if s[0] == 1 {
      if s[1] == 0 { assert p == [b, a, c]; SwapFirst(a, b, c); }
      else { assert p == [b, c, a]; SwapLast(b, a, c); SwapFirst(a, b, c); }
    } else {
      if s[1] == 0 { assert p == [c, a, b]; SwapFirst(a, c, b); SwapLast(a, b, c); }
      else { assert p == [c, b, a]; SwapFirst(b, c, a); SwapLast(b, a, c); SwapFirst(a, b, c); }
    }
  }

  lemma SwapFirst<T>(a: T, b: T, c: T)
    ensures multiset([b, a, c]) == multiset([a, b, c])
  {
  }

  lemma SwapLast<T>(a: T, b: T, c: T)
    ensures multiset([a, c, b]) == multiset([a, b, c])
  {
  }

  /** `"abc"[k]`. */
  function Letter(k: nat): char
    requires k < 3
  {
    if k == 0 then 'a' else if k == 1 then 'b' else 'c'
  }

  /**
   * The shuffled options `[correct] + distractors` and the letter of the
   * correct one: `"abc"[opts.index(correct)]`.
   */
  function Choices(bullets: seq<string>, shuffle: seq<nat>): (r: (seq<string>, char))
    requires |bullets| >= 2 && IsShuffle(shuffle)
    ensures |r.0| == 3
  {
    var correct := bullets[0];
    var opts := Arrange([correct] + Distractors(bullets), shuffle);
    ArrangePermutes([correct] + Distractors(bullets), shuffle);
    (opts, Letter(IndexOf(opts, correct)))
  }

  /** The options are the correct bullet and the distractors in some order; the letter names the correct one. */
  lemma ChoicesSpec(bullets: seq<string>, shuffle: seq<nat>)
    requires |bullets| >= 2 && IsShuffle(shuffle)
    ensures var (opts, letter) := Choices(bullets, shuffle);
      && multiset(opts) == multiset([bullets[0]] + Distractors(bullets))
      && (letter == 'a' || letter == 'b' || letter == 'c')
      && opts[if letter == 'a' then 0 else if letter == 'b' then 1 else 2] == bullets[0]
  {
    ArrangePermutes([bullets[0]] + Distractors(bullets), shuffle);
  }

  /** The question built from a module with at least two bullets. */
  function QuizOf(md: ModuleDef, bullets: seq<string>, shuffle: seq<nat>): Quiz
    requires |bullets| >= 2 && IsShuffle(shuffle)
  {
    var (opts, letter) := Choices(bullets, shuffle);
    Quiz(
      "What must you remember about " + md.title + "?",
      opts[0], opts[1], opts[2],
      letter,
      "Source: " + Basename(md.source) + " (demo)",
      md.source + "#1")
  }

  /**
   * The options are the first bullet and its two distractors in some
   * order, and the letter names the first bullet.
   */
  lemma QuizOfOptions(md: ModuleDef, bullets: seq<string>, shuffle: seq<nat>)
    requires |bullets| >= 2 && IsShuffle(shuffle)
    ensures var q := QuizOf(md, bullets, shuffle);
      && multiset([q.a, q.b, q.c]) == multiset([bullets[0]] + Distractors(bullets))
      && (q.correct == 'a' || q.correct == 'b' || q.correct == 'c')
      && OptionAt(q, q.correct) == bullets[0]
  {
    ChoicesSpec(bullets, shuffle);
    var (opts, letter) := Choices(bullets, shuffle);
    var q := QuizOf(md, bullets, shuffle);
    assert opts == [q.a, q.b, q.c];
  }

  /**
   * `quiz_from_module`, with the shuffle given as `shuffle`. The source
   * fails on a policy with exactly one bullet (the option list is then
   * too short), so that case is excluded.
   */
  function QuizFromModule(cat: Catalog, mid: string, shuffle: seq<nat>): (q: Option<Quiz>)
    requires mid in Ids(cat.modules) && IsShuffle(shuffle)
    requires |ModuleBullets(cat, mid)| != 1
    ensures q.None? <==> ModuleBullets(cat, mid) == []
    ensures q.Some? ==> q.value == QuizOf(ModuleOf(cat.modules, mid), ModuleBullets(cat, mid), shuffle)
  {
    var bullets := ModuleBullets(cat, mid);
    if bullets == [] then None
    else Some(QuizOf(ModuleOf(cat.modules, mid), bullets, shuffle))
  }

  /** A module whose policy has bullets yields a question about its first bullet. */
  lemma QuizOptions(cat: Catalog, mid: string, shuffle: seq<nat>)
    requires mid in Ids(cat.modules) && IsShuffle(shuffle)
    requires |ModuleBullets(cat, mid)| >= 2
    ensures var q := QuizFromModule(cat, mid, shuffle).value;
      var bullets := ModuleBullets(cat, mid);
      && multiset([q.a, q.b, q.c]) == multiset([bullets[0]] + Distractors(bullets))
      && (q.correct == 'a' || q.correct == 'b' || q.correct == 'c')
      && OptionAt(q, q.correct) == bullets[0]
  {
    QuizOfOptions(ModuleOf(cat.modules, mid), ModuleBullets(cat, mid), shuffle);
  }

  // ---------------------------------------------------------------------
  // Roles

  /** Exact, case-insensitive match on the role's name or one of its aliases. */
  predicate ExactMatch(rd: RoleDef, r: string) {
    Lower(rd.name) == r || exists a | a in rd.aliases :: Lower(a) == r
  }

  /** Either name contains the other, after lower-casing the role's name. */
  predicate FuzzyMatch(rd: RoleDef, r: string) {
    Contains(Lower(rd.name), r) || Contains(r, Lower(rd.name))
  }

  /** The first role at or after `from` that satisfies `m`. */
  function FindRole(roles: seq<RoleDef>, m: RoleDef -> bool, from: nat): (j: Option<nat>)
    ensures j.Some? ==>
      from <= j.value < |roles| && m(roles[j.value]) && forall k :: from <= k < j.value ==> !m(roles[k])
    ensures j.None? ==> forall k :: from <= k < |roles| ==> !m(roles[k])
    decreases |roles| - from
  {
    if from >= |roles| then None
    else if m(roles[from]) then Some(from)
    else FindRole(roles, m, from + 1)
  }

  /** The reference result of `canonical_role`. */
  function CanonicalRoleOf(roles: seq<RoleDef>, roleIn: string): string {
    if roleIn == "" then roleIn
    else
      var r := Lower(Strip(roleIn));
      match FindRole(roles, rd => ExactMatch(rd, r), 0)
      case Some(j) => roles[j].name
      case None =>
        match FindRole(roles, rd => FuzzyMatch(rd, r), 0)
        case Some(j) => roles[j].name
        case None => roleIn
  }

  /** `canonical_role`: an exact name or alias match first, then a containment match, else the input. */
  method CanonicalRole(roles: seq<RoleDef>, roleIn: string) returns (name: string)
    ensures name == CanonicalRoleOf(roles, roleIn)
  {
    if roleIn == "" {
      return roleIn;
    }
    var r := Lower(Strip(roleIn));
    ghost var exact := rd => ExactMatch(rd, r);
    var i := 0;
    while i < |roles|
      invariant 0 <= i <= |roles|
      invariant forall k :: 0 <= k < i ==> !exact(roles[k])
    {
      if Lower(roles[i].name) == r {
        return roles[i].name;
      }
      if exists a | a in roles[i].aliases :: Lower(a) == r {
        return roles[i].name;
      }
      i := i + 1;
    }
    ghost var fuzzy := rd => FuzzyMatch(rd, r);
    i := 0;
    while i < |roles|
      invariant 0 <= i <= |roles|
      invariant forall k :: 0 <= k < i ==> !fuzzy(roles[k])
    {
      var lowName := Lower(roles[i].name);
      if Contains(lowName, r) || Contains(r, lowName) {
        return roles[i].name;
      }
      i := i + 1;
    }
    return roleIn;
  }

  /**
   * An empty role is kept; otherwise the first exact match wins, failing
   * that the first containment match, failing that the input itself.
   */
  lemma CanonicalRoleCases(roles: seq<RoleDef>, roleIn: string)
    ensures roleIn == "" ==> CanonicalRoleOf(roles, roleIn) == ""
    ensures var r := Lower(Strip(roleIn));
      forall j ::
        (0 <= j < |roles| && roleIn != "" && ExactMatch(roles[j], r)
         && (forall k :: 0 <= k < j ==> !ExactMatch(roles[k], r))) ==>
        CanonicalRoleOf(roles, roleIn) == roles[j].name
    ensures var r := Lower(Strip(roleIn));
      forall j ::
        (0 <= j < |roles| && roleIn != "" && FuzzyMatch(roles[j], r)
         && (forall k :: 0 <= k < |roles| ==> !ExactMatch(roles[k], r))
         && (forall k :: 0 <= k < j ==> !FuzzyMatch(roles[k], r))) ==>
        CanonicalRoleOf(roles, roleIn) == roles[j].name
    ensures var r := Lower(Strip(roleIn));
      (forall k :: 0 <= k < |roles| ==> !ExactMatch(roles[k], r) && !FuzzyMatch(roles[k], r)) ==>
        CanonicalRoleOf(roles, roleIn) == roleIn
    ensures CanonicalRoleOf(roles, roleIn) == roleIn ||
      exists j :: 0 <= j < |roles| && CanonicalRoleOf(roles, roleIn) == roles[j].name
  {
    var r := Lower(Strip(roleIn));
    var exact := rd => ExactMatch(rd, r);
    var fuzzy := rd => FuzzyMatch(rd, r);
    var e := FindRole(roles, exact, 0);
    var f := FindRole(roles, fuzzy, 0);
    if roleIn != "" && e.Some? {
      assert CanonicalRoleOf(roles, roleIn) == roles[e.value].name;
    } else if roleIn != "" && f.Some? {
      assert CanonicalRoleOf(roles, roleIn) == roles[f.value].name;
    }
  }

  // ---------------------------------------------------------------------
  // Tags

  /** `EQUIP_MAP.get(e.strip().lower(), [])`. */
  function EquipEntry(equipMap: map<string, seq<string>>, e: string): seq<string> {
    var key := Lower(Strip(e));
    if key in equipMap then equipMap[key] else []
  }

  /** The union of the equipment entries of the first `n` items. */
  function EquipTagsUpTo(equipMap: map<string, seq<string>>, equip: seq<string>, n: nat): set<string>
    requires n <= |equip|
  {
    if n == 0 then {}
    else
      var entry := EquipEntry(equipMap, equip[n - 1]);
      EquipTagsUpTo(equipMap, equip, n - 1) + set t | t in entry
  }

  /** The union of the equipment entries of `equip`. */
  function EquipTags(equipMap: map<string, seq<string>>, equip: seq<string>): set<string> {
    EquipTagsUpTo(equipMap, equip, |equip|)
  }

  /** `tags_from_equipment`. */
  method TagsFromEquipment(equipMap: map<string, seq<string>>, equipList: seq<string>) returns (tags: set<string>)
    ensures tags == EquipTags(equipMap, equipList)
  {
    tags := {};
    var i := 0;
    while i < |equipList|
      invariant 0 <= i <= |equipList|
      invariant tags == EquipTagsUpTo(equipMap, equipList, i)
    {
      var eKey := Lower(Strip(equipList[i]));
      var add := if eKey in equipMap then equipMap[eKey] else [];
      tags := tags + set t | t in add;
      i := i + 1;
    }
  }

  lemma {:induction false} EquipTagsUpToSpec(equipMap: map<string, seq<string>>, equip: seq<string>, n: nat)
    requires n <= |equip|
    ensures forall t :: t in EquipTagsUpTo(equipMap, equip, n) <==>
      exists i :: 0 <= i < n && t in EquipEntry(equipMap, equip[i])
  {
    if n > 0 {
      EquipTagsUpToSpec(equipMap, equip, n - 1);
    }
  }

  /** A tag comes from the equipment exactly when the map entry of some item holds it. */
  lemma EquipTagsSpec(equipMap: map<string, seq<string>>, equip: seq<string>)
    ensures forall t :: t in EquipTags(equipMap, equip) <==>
      exists i :: 0 <= i < |equip| && t in EquipEntry(equipMap, equip[i])
  {
    EquipTagsUpToSpec(equipMap, equip, |equip|);
  }

  /** Unknown equipment adds no tag. */
  lemma UnknownEquipmentAddsNothing(equipMap: map<string, seq<string>>, equip: seq<string>, e: string)
    requires Lower(Strip(e)) !in equipMap
    ensures EquipTags(equipMap, equip + [e]) == EquipTags(equipMap, equip)
  {
    var ext := equip + [e];
    EquipTagsSpec(equipMap, equip);
    EquipTagsSpec(equipMap, ext);
    assert EquipEntry(equipMap, ext[|equip|]) == [];
    forall t | t in EquipTags(equipMap, ext) ensures t in EquipTags(equipMap, equip) {
      var i :| 0 <= i < |ext| && t in EquipEntry(equipMap, ext[i]);
      assert ext[i] == equip[i];
    }
    forall t | t in EquipTags(equipMap, equip) ensures t in EquipTags(equipMap, ext) {
      var i :| 0 <= i < |equip| && t in EquipEntry(equipMap, equip[i]);
      assert ext[i] == equip[i];
    }
  }

  /** The tags one incident adds. */
  function IncidentTags(inc: string): set<string> {
    var low := Lower(inc);
    (if Contains(low, "spill") then {"spill_response", "chemicals", "sds"} else {})
    + (if Contains(low, "ppe") then {"ppe"} else {})
    + (if Contains(low, "forklift") then {"heavy_equipment"} else {})
    + (if Contains(low, "near_miss") then {"preoperation_check"} else {})
  }

  function IncidentTagsOf(incs: seq<string>): set<string> {
    if incs == [] then {}
    else IncidentTagsOf(incs[..|incs| - 1]) + IncidentTags(incs[|incs| - 1])
  }

  /** `tags_from_incidents`. */
  method TagsFromIncidents(incList: seq<string>) returns (tags: set<string>)
    ensures tags == IncidentTagsOf(incList)
  {
    tags := {};
    var i := 0;
    while i < |incList|
      invariant 0 <= i <= |incList|
      invariant tags == IncidentTagsOf(incList[..i])
    {
      assert incList[..i + 1][..i] == incList[..i];
      var low := Lower(incList[i]);
      var add: set<string> := {};
      if Contains(low, "spill") { add := add + {"spill_response", "chemicals", "sds"}; }
      if Contains(low, "ppe") { add := add + {"ppe"}; }
      if Contains(low, "forklift") { add := add + {"heavy_equipment"}; }
      if Contains(low, "near_miss") { add := add + {"preoperation_check"}; }
      tags := tags + add;
      i := i + 1;
    }
    assert incList[..i] == incList;
  }

  /** Each incident tag is present exactly when its keyword occurs, ignoring case. */
  lemma IncidentTagsSpec(inc: string)
    ensures var low := Lower(inc);
      && ("spill_response" in IncidentTags(inc) <==> Contains(low, "spill"))
      && ("chemicals" in IncidentTags(inc) <==> Contains(low, "spill"))
      && ("sds" in IncidentTags(inc) <==> Contains(low, "spill"))
      && ("ppe" in IncidentTags(inc) <==> Contains(low, "ppe"))
      && ("heavy_equipment" in IncidentTags(inc) <==> Contains(low, "forklift"))
      && ("preoperation_check" in IncidentTags(inc) <==> Contains(low, "near_miss"))
    ensures IncidentTags(inc) <= {"spill_response", "chemicals", "sds", "ppe", "heavy_equipment", "preoperation_check"}
  {
  }

  /** Matching ignores case: an incident and its lower-cased form add the same tags. */
  lemma IncidentTagsIgnoreCase(inc: string)
    ensures IncidentTags(Lower(inc)) == IncidentTags(inc)
  {
    LowerIdempotent(inc);
  }

  /** The incident tags are the union of the tags of each incident. */
  lemma {:induction false} IncidentTagsOfSpec(incs: seq<string>)
    ensures forall t :: t in IncidentTagsOf(incs) <==> exists i :: 0 <= i < |incs| && t in IncidentTags(incs[i])
  {
    if incs != [] {
      var n := |incs| - 1;
      IncidentTagsOfSpec(incs[..n]);
      forall t ensures t in IncidentTagsOf(incs) <==> exists i :: 0 <= i < |incs| && t in IncidentTags(incs[i]) {
        if t in IncidentTagsOf(incs[..n]) {
          var i :| 0 <= i < n && t in IncidentTags(incs[..n][i]);
          assert incs[..n][i] == incs[i];
        }
        if exists i :: 0 <= i < |incs| && t in IncidentTags(incs[i]) {
          var i :| 0 <= i < |incs| && t in IncidentTags(incs[i]);
          if i < n { assert incs[..n][i] == incs[i]; }
        }
      }
    }
  }

  // ---------------------------------------------------------------------
  // compute_recommend

  /** `CATALOG["roles"].get(name, {})`. */
  function RoleDefOf(roles: seq<RoleDef>, name: string): (rd: RoleDef)
    ensures rd in roles || rd == RoleDef(name, [], [], [], [])
  {
    if roles == [] then RoleDef(name, [], [], [], [])
    else if roles[0].name == name then roles[0]
    else RoleDefOf(roles[1..], name)
  }

  /** `[mid for mid in ids if mid in MODULES]`. */
  function KnownOnly(modules: seq<ModuleDef>, ids: seq<string>): (r: seq<string>)
    ensures |r| <= |ids|
  {
    if ids == [] then []
    else
      var last := ids[|ids| - 1];
      KnownOnly(modules, ids[..|ids| - 1]) + if last in Ids(modules) then [last] else []
  }

  /** The filter keeps exactly the listed ids that name catalogue modules. */
  lemma {:induction false} KnownOnlySpec(modules: seq<ModuleDef>, ids: seq<string>)
    ensures forall x :: x in KnownOnly(modules, ids) <==> x in ids && x in Ids(modules)
  {
    if ids != [] {
      var n := |ids| - 1;
      KnownOnlySpec(modules, ids[..n]);
      assert ids == ids[..n] + [ids[n]];
    }
  }

  predicate SharesTag(riskTags: seq<string>, tags: set<string>) {
    exists t | t in riskTags :: t in tags
  }

  /**
   * `optional` after the loop over `MODULES` that appends every module
   * sharing a risk tag with `tags` and not yet required or optional.
   */
  function AddOptional(modules: seq<ModuleDef>, required: seq<string>, optional: seq<string>, tags: set<string>): seq<string> {
    if modules == [] then optional
    else
      var prev := AddOptional(modules[..|modules| - 1], required, optional, tags);
      var md := modules[|modules| - 1];
      if md.id in required || md.id in prev then prev
      else if SharesTag(md.riskTags, tags) then prev + [md.id]
      else prev
  }

  /**
   * The loop only appends; an appended module shares a tag and was neither
   * required nor optional; and every module sharing a tag ends up required
   * or optional.
   */
  lemma {:induction false} AddOptionalSpec(modules: seq<ModuleDef>, required: seq<string>, optional: seq<string>, tags: set<string>)
    ensures var r := AddOptional(modules, required, optional, tags);
      && |optional| <= |r| && r[..|optional|] == optional
      && (forall mid :: mid in r[|optional|..] ==>
            mid !in required && mid !in optional
            && exists i :: 0 <= i < |modules| && modules[i].id == mid && SharesTag(modules[i].riskTags, tags))
      && (forall i :: 0 <= i < |modules| && SharesTag(modules[i].riskTags, tags) ==>
            modules[i].id in required || modules[i].id in r)
  {
    if modules != [] {
      var n := |modules| - 1;
      var pre := modules[..n];
      AddOptionalSpec(pre, required, optional, tags);
      var prev := AddOptional(pre, required, optional, tags);
      var r := AddOptional(modules, required, optional, tags);
      var md := modules[n];
      assert forall y :: y in optional ==> y in prev by {
        forall y | y in optional ensures y in prev {
          var p :| 0 <= p < |optional| && optional[p] == y;
          assert prev[p] == y;
        }
      }
      var extra := if r == prev then [] else [md.id];
      assert r == prev + extra;
      assert r[|optional|..] == prev[|optional|..] + extra;
      assert r[..|optional|] == optional;
      forall mid | mid in r[|optional|..]
        ensures mid !in required && mid !in optional
          && exists i :: 0 <= i < |modules| && modules[i].id == mid && SharesTag(modules[i].riskTags, tags)
      {
        if mid in prev[|optional|..] {
          var i :| 0 <= i < n && pre[i].id == mid && SharesTag(pre[i].riskTags, tags);
          assert modules[i] == pre[i];
        } else {
          assert mid == md.id && r != prev;
        }
      }
      forall i | 0 <= i < |modules| && SharesTag(modules[i].riskTags, tags)
        ensures modules[i].id in required || modules[i].id in r
      {
        if i < n {
          assert pre[i] == modules[i];
        }
      }
    }
  }

  /** The tags matched for a role and profile. */
  function TagSet(cat: Catalog, rd: RoleDef, equipment: seq<string>, incidents: seq<string>): set<string> {
    (set t | t in rd.defaultTags) + EquipTags(cat.equipMap, equipment) + IncidentTagsOf(incidents)
  }

  /** The response of `recommend`, without the persistence side effects. */
  datatype Recommendation = Recommendation(
    role: string, matchedTags: seq<string>, modules: seq<string>,
    microModules: seq<string>, checklist: seq<string>, quiz: seq<Quiz>)

  /** The modules of the catalogue have policies with other than exactly one bullet. */
  predicate QuizSafe(cat: Catalog) {
    forall i :: 0 <= i < |cat.modules| ==> |ModuleBullets(cat, cat.modules[i].id)| != 1
  }

  lemma QuizSafeAt(cat: Catalog, mid: string)
    requires QuizSafe(cat) && mid in Ids(cat.modules)
    ensures |ModuleBullets(cat, mid)| != 1
  {
    var i := IndexOf(Ids(cat.modules), mid);
    assert cat.modules[i].id == mid;
  }

  /** Every module has its own shuffle of the three options. */
  predicate Shuffles(shuffles: seq<seq<nat>>, n: nat) {
    |shuffles| >= n && forall k :: 0 <= k < |shuffles| ==> IsShuffle(shuffles[k])
  }

  /** The quizzes of the first `n` selected modules, one shuffle per module, skipping bullet-less ones. */
  function QuizzesUpTo(cat: Catalog, mids: seq<string>, n: nat, shuffles: seq<seq<nat>>): (qs: seq<Quiz>)
    requires AllKnown(cat, mids) && QuizSafe(cat) && n <= |mids| && Shuffles(shuffles, |mids|)
    ensures |qs| <= n
  {
    if n == 0 then []
    else
      var mid := mids[n - 1];
      QuizSafeAt(cat, mid);
      var q := QuizFromModule(cat, mid, shuffles[n - 1]);
      QuizzesUpTo(cat, mids, n - 1, shuffles) + if q.Some? then [q.value] else []
  }

  /** The quizzes of all the selected modules. */
  function QuizzesOf(cat: Catalog, mids: seq<string>, shuffles: seq<seq<nat>>): (qs: seq<Quiz>)
    requires AllKnown(cat, mids) && QuizSafe(cat) && Shuffles(shuffles, |mids|)
    ensures |qs| <= |mids|
  {
    QuizzesUpTo(cat, mids, |mids|, shuffles)
  }

  lemma ModulesKnown(cat: Catalog, ids: seq<string>)
    ensures AllKnown(cat, KnownOnly(cat.modules, ids))
  {
    KnownOnlySpec(cat.modules, ids);
  }

  /** The first `n` entries of `s` and the first `m` of `t` are known modules when `s` and `t` are. */
  lemma TakesKnown(cat: Catalog, s: seq<string>, t: seq<string>, n: nat, m: nat)
    requires AllKnown(cat, s) && AllKnown(cat, t)
    ensures AllKnown(cat, Take(s, n) + Take(t, m))
  {
    var r := Take(s, n) + Take(t, m);
    forall i | 0 <= i < |r| ensures r[i] in Ids(cat.modules) {
      if i < |Take(s, n)| { assert r[i] == s[i]; } else { assert r[i] == t[i - |Take(s, n)|]; }
    }
  }

  /** Every id `AddOptional` holds is a known module when the starting list is. */
  lemma AddOptionalKnown(cat: Catalog, required: seq<string>, optional: seq<string>, tags: set<string>)
    requires AllKnown(cat, optional)
    ensures AllKnown(cat, AddOptional(cat.modules, required, optional, tags))
  {
    AddOptionalSpec(cat.modules, required, optional, tags);
    var r := AddOptional(cat.modules, required, optional, tags);
    forall p | 0 <= p < |r| ensures r[p] in Ids(cat.modules) {
      if p < |optional| {
        assert r[p] == optional[p];
      } else {
        assert r[p] == r[|optional|..][p - |optional|];
        assert r[p] in r[|optional|..];
        var i :| 0 <= i < |cat.modules| && cat.modules[i].id == r[p] && SharesTag(cat.modules[i].riskTags, tags);
        assert Ids(cat.modules)[i] == r[p];
      }
    }
  }

  /** The optional-module loop of `compute_recommend`. */
  method AutoAddOptional(modules: seq<ModuleDef>, required: seq<string>, optional0: seq<string>, tags: set<string>)
    returns (optional: seq<string>)
    ensures optional == AddOptional(modules, required, optional0, tags)
  {
    optional := optional0;
    var i := 0;
    while i < |modules|
      invariant 0 <= i <= |modules|
      invariant optional == AddOptional(modules[..i], required, optional0, tags)
    {
      assert modules[..i + 1][..i] == modules[..i];
      var md := modules[i];
      if !(md.id in required || md.id in optional) {
        if exists t | t in md.riskTags :: t in tags {
          optional := optional + [md.id];
        }
      }
      i := i + 1;
    }
    assert modules[..i] == modules;
  }

  /** The quiz loop of `compute_recommend`. */
  method BuildQuiz(cat: Catalog, mids: seq<string>, shuffles: seq<seq<nat>>) returns (quiz: seq<Quiz>)
    requires AllKnown(cat, mids) && QuizSafe(cat) && Shuffles(shuffles, |mids|)
    ensures quiz == QuizzesOf(cat, mids, shuffles)
  {
    quiz := [];
    var i := 0;
    while i < |mids|
      invariant 0 <= i <= |mids|
      invariant quiz == QuizzesUpTo(cat, mids, i, shuffles)
    {
      var mid := mids[i];
      QuizSafeAt(cat, mid);
      var q := QuizFromModule(cat, mid, shuffles[i]);
      if q.Some? {
        quiz := quiz + [q.value];
      }
      i := i + 1;
    }
  }

  /** `compute_recommend` for one role and profile; `shuffles` stands for the two quiz shuffles. */
  method ComputeRecommend(cat: Catalog, role: string, equipment: seq<string>, incidents: seq<string>, shuffles: seq<seq<nat>>)
    returns (resp: Recommendation)
    requires QuizSafe(cat)
    requires Shuffles(shuffles, 2)
    ensures resp.role == CanonicalRoleOf(cat.roles, role)
    ensures var rd := RoleDefOf(cat.roles, resp.role);
      && resp.modules == KnownOnly(cat.modules, rd.required)
      && var optional := AddOptional(cat.modules, resp.modules, KnownOnly(cat.modules, rd.optional), TagSet(cat, rd, equipment, incidents));
      && resp.microModules == Take(optional, 2)
      && AllKnown(cat, Take(resp.modules, 1) + Take(optional, 1))
      && AllKnown(cat, resp.modules + Take(optional, 1))
      && resp.checklist == ChecklistSpec(cat, resp.modules + Take(optional, 1))
      && resp.quiz == QuizzesOf(cat, Take(resp.modules, 1) + Take(optional, 1), shuffles)
      && StrictlyAscending(resp.matchedTags)
      && (forall t :: t in resp.matchedTags <==> t in TagSet(cat, rd, equipment, incidents))
  {
    var roleKey := CanonicalRole(cat.roles, role);
    var rd := RoleDefOf(cat.roles, roleKey);
    var required := KnownOnly(cat.modules, rd.required);
    var optional := KnownOnly(cat.modules, rd.optional);
    ModulesKnown(cat, rd.required);
    ModulesKnown(cat, rd.optional);
    var equipTags := TagsFromEquipment(cat.equipMap, equipment);
    var incidentTags := TagsFromIncidents(incidents);
    var tags := (set t | t in rd.defaultTags) + equipTags + incidentTags;
    optional := AutoAddOptional(cat.modules, required, optional, tags);
    AddOptionalKnown(cat, required, KnownOnly(cat.modules, rd.optional), tags);
    TakesKnown(cat, required, optional, |required|, 1);
    assert Take(required, |required|) == required;
    var checklist := BuildChecklist(cat, required + Take(optional, 1));
    TakesKnown(cat, required, optional, 1, 1);
    var quiz := BuildQuiz(cat, Take(required, 1) + Take(optional, 1), shuffles);
    var matched := SortedList(tags);
    resp := Recommendation(roleKey, matched, required, Take(optional, 2), checklist, quiz);
  }

  /** At most two micro-modules and two quiz questions, and every module named is in the catalogue. */
  lemma RecommendBounds(cat: Catalog, rd: RoleDef, tags: set<string>, shuffles: seq<seq<nat>>)
    requires QuizSafe(cat)
    requires Shuffles(shuffles, 2)
    ensures var required := KnownOnly(cat.modules, rd.required);
      var optional := AddOptional(cat.modules, required, KnownOnly(cat.modules, rd.optional), tags);
      && AllKnown(cat, required) && AllKnown(cat, optional)
      && |Take(optional, 2)| <= 2
      && AllKnown(cat, Take(required, 1) + Take(optional, 1))
      && |QuizzesOf(cat, Take(required, 1) + Take(optional, 1), shuffles)| <= 2
  {
    var required := KnownOnly(cat.modules, rd.required);
    ModulesKnown(cat, rd.required);
    ModulesKnown(cat, rd.optional);
    AddOptionalKnown(cat, required, KnownOnly(cat.modules, rd.optional), tags);
    var optional := AddOptional(cat.modules, required, KnownOnly(cat.modules, rd.optional), tags);
    TakesKnown(cat, required, optional, 1, 1);
  }
}
