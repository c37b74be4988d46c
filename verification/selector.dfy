/**
  One compound fragment of a style-sheet selector (such as `button.big#ok:hover`):
  how the fragment is parsed into a rule (tag, id, classes, pseudo-classes,
  specificity and the set of requirements a matching element must meet) and
  how such a rule is matched against an element.

  The delimiter characters and the specificity weights are defined outside
  this model, so they are parameters here (`Marks`, `Weights`).
 */
module SelectorRule {

  // ---------------------------------------------------------------------
  // Vocabulary
  // ---------------------------------------------------------------------

  /** The delimiters: class, id, the global tag, and the pseudo-class mark. */
  datatype Marks = Marks(classMark: char, idMark: char, globalMark: char, pseudoMark: char)

  /** The class, id and pseudo-class delimiters are three different characters. */
  predicate ValidMarks(mk: Marks) {
    mk.classMark != mk.idMark && mk.classMark != mk.pseudoMark && mk.idMark != mk.pseudoMark
  }

  /** The weight each kind of segment adds to a rule's specificity. */
  datatype Weights = Weights(ofGlobal: nat, ofTag: nat, ofClass: nat, ofId: nat, ofPseudoClass: nat)

  /** The kind of the segment being read: the tokenizer's current type identifier. */
  datatype TypeIdentifier = TagType | ClassType | IdType | GlobalType

  /** The requirement flags of a rule. */
  datatype Requirement = TagName | Id | Class | PseudoClass

  datatype Rule = Rule(tagName: string, id: string, classes: seq<string>,
                       pseudoClasses: seq<string>, structuralPseudoClasses: seq<string>,
                       specificity: nat, requirements: set<Requirement>)

  /** What a rule is matched against: an element's tag, id, classes and active pseudo-classes. */
  datatype Element = Element(tag: string, id: string, classes: seq<string>, pseudoClasses: seq<string>)

  const StatePseudoClasses: seq<string> :=
    ["normal", "focus", "selected", "hover", "pressed", "selectedhover", "selectedpressed", "disabled"]

  /** The structural names as listed; two of them occur twice. */
  const StructuralPseudoClasses: seq<string> :=
    ["root", "nth-child", "nth-last-child", "nth-of-type", "nth-last-of-type", "nth-child",
     "nth-last-child", "first-of-type", "last-of-type", "only-child", "only-of-type", "empty"]

  predicate EndsWith(s: string, c: char) {
    |s| > 0 && s[|s| - 1] == c
  }

  // ---------------------------------------------------------------------
  // Pseudo-class names
  // ---------------------------------------------------------------------

  /** A linear scan of `names` from `from` on for an entry equal to `p`. */
  function Listed(names: seq<string>, p: string, from: nat): (r: bool)
    requires from <= |names|
    ensures r <==> exists k :: from <= k < |names| && names[k] == p
    decreases |names| - from
  {
    if from == |names| then false
    else names[from] == p || Listed(names, p, from + 1)
  }

  /** A linear scan of `names` from `from` on for an entry that starts with `p`. */
  function ListedWithPrefix(names: seq<string>, p: string, from: nat): (r: bool)
    requires from <= |names|
    ensures r <==> exists k :: from <= k < |names| && p <= names[k]
    decreases |names| - from
  {
    if from == |names| then false
    else p <= names[from] || ListedWithPrefix(names, p, from + 1)
  }

  /** isPseudoClassState: `p` names one of the eight interaction states. */
  function IsPseudoClassState(p: string): (r: bool)
    ensures r <==> p in {"normal", "focus", "selected", "hover", "pressed",
                         "selectedhover", "selectedpressed", "disabled"}
  {
    Listed(StatePseudoClasses, p, 0)
  }

  /**
    isStructuralPseudoClass: some structural name starts with `p` (so `p`
    is a prefix of a listed name, not the other way round).
   */
  function IsStructuralPseudoClass(p: string): (r: bool)
    ensures r <==> exists k :: 0 <= k < |StructuralPseudoClasses| && p <= StructuralPseudoClasses[k]
  {
    ListedWithPrefix(StructuralPseudoClasses, p, 0)
  }

  /** The prefix direction: a shortened name is structural, a name with an argument is not. */
  lemma StructuralPrefixDirection()
    ensures IsStructuralPseudoClass("nth-child")
    ensures IsStructuralPseudoClass("first")
    ensures !IsStructuralPseudoClass("nth-child(2)")
  {
    assert "first" <= StructuralPseudoClasses[7];
    var p := "nth-child(2)";
    var names := StructuralPseudoClasses;
    forall k | 0 <= k < |names| ensures !(p <= names[k]) {
      if |names[k]| >= |p| {
        assert k in {2, 4, 6, 7, 8, 10};
        if k in {2, 4, 6} {
          NotPrefixAt(p, names[k], 4);
        } else {
          NotPrefixAt(p, names[k], 0);
        }
      }
    }
  }

  lemma NotPrefixAt(p: string, s: string, i: nat)
    requires i < |p| && i < |s| && p[i] != s[i]
    ensures !(p <= s)
  {
  }

  // ---------------------------------------------------------------------
  // Splitting off the last pseudo-class
  // ---------------------------------------------------------------------

  /** The index of the last `c` in `s`, or -1 when `s` has none. */
  function LastIndexOf(s: string, c: char): (r: int)
    ensures -1 <= r < |s|
    ensures r >= 0 ==> s[r] == c
    ensures forall k :: r < k < |s| ==> s[k] != c
  {
    if |s| == 0 then -1
    else if s[|s| - 1] == c then |s| - 1
    else LastIndexOf(s[..|s| - 1], c)
  }

  /**
    The (selector, pseudo-class) pair obtained by splitting at the last
    pseudo-class mark. The pseudo-class is empty when there is nothing to
    split off: no mark, a doubled mark, or a mark at the very end.
   */
  function SplitPseudoClass(mk: Marks, sel: string): (r: (string, string))
    ensures r.1 != [] ==> sel == r.0 + [mk.pseudoMark] + r.1
    ensures r.1 != [] ==> mk.pseudoMark !in r.1 && !EndsWith(r.0, mk.pseudoMark)
    ensures mk.pseudoMark !in sel ==> r == (sel, [])
  {
    var c := LastIndexOf(sel, mk.pseudoMark);
    if c < 0 then (sel, [])
    else if c == 0 then
      assert sel == [] + [mk.pseudoMark] + sel[1..];
      ([], sel[1..])
    else if sel[c - 1] == mk.pseudoMark then (sel, [])
    else
      assert sel == sel[..c] + [mk.pseudoMark] + sel[c + 1..];
      (sel[..c], sel[c + 1..])
  }

  /** Splitting undoes joining: a mark-free pseudo-class after a selector that does not end in a mark comes back off. */
  lemma SplitJoin(mk: Marks, a: string, b: string)
    requires b != [] && mk.pseudoMark !in b && !EndsWith(a, mk.pseudoMark)
    ensures SplitPseudoClass(mk, a + [mk.pseudoMark] + b) == (a, b)
  {
    var sel := a + [mk.pseudoMark] + b;
    var c := LastIndexOf(sel, mk.pseudoMark);
    assert sel[|a|] == mk.pseudoMark;
    assert forall k :: |a| < k < |sel| ==> sel[k] == b[k - |a| - 1];
    assert c == |a|;
    if c > 0 {
      assert sel[c - 1] == a[|a| - 1];
      assert sel[..c] == a && sel[c + 1..] == b;
    } else {
      assert sel[1..] == b;
    }
  }

  /** A doubled mark leaves the selector whole and yields no pseudo-class. */
  lemma DoubledMarkKeepsSelector(mk: Marks, a: string, b: string)
    requires mk.pseudoMark !in b
    ensures SplitPseudoClass(mk, a + [mk.pseudoMark, mk.pseudoMark] + b) == (a + [mk.pseudoMark, mk.pseudoMark] + b, [])
  {
    var sel := a + [mk.pseudoMark, mk.pseudoMark] + b;
    assert sel[|a| + 1] == mk.pseudoMark && sel[|a|] == mk.pseudoMark;
    assert forall k :: |a| + 1 < k < |sel| ==> sel[k] == b[k - |a| - 2];
    assert LastIndexOf(sel, mk.pseudoMark) == |a| + 1;
  }

  /** splitSelectorPseudoClass: the backward scan remembering whether the previous character was a mark. */
  method SplitSelectorPseudoClass(mk: Marks, selector: string) returns (realSelector: string, realPseudoClass: string)
    ensures (realSelector, realPseudoClass) == SplitPseudoClass(mk, selector)
  {
    realSelector, realPseudoClass := [], [];
    if |selector| > 0 {
      var lastWasColon := false;
      var i := |selector| - 1;
      while i >= 0
        invariant -1 <= i < |selector|
        invariant lastWasColon <==> i + 1 < |selector| && selector[i + 1] == mk.pseudoMark
        invariant forall k :: i + 1 < k < |selector| ==> selector[k] != mk.pseudoMark
        invariant !lastWasColon ==> forall k :: i < k < |selector| ==> selector[k] != mk.pseudoMark
      {
        var curChar := selector[i];
        if lastWasColon {
          // i + 2 <= |selector| always holds here, so the source's else-branch is dead
          assert LastIndexOf(selector, mk.pseudoMark) == i + 1;
          if curChar == mk.pseudoMark {
            realSelector := selector;
          } else {
            realSelector := selector[..i + 1];
            realPseudoClass := selector[i + 2..];
          }
          return;
        } else if curChar == mk.pseudoMark {
          lastWasColon := true;
        }
        i := i - 1;
      }
      if lastWasColon {
        assert LastIndexOf(selector, mk.pseudoMark) == 0;
        if |selector| > 1 {
          realPseudoClass := selector[1..];
        }
      } else {
        realSelector := selector;
      }
    }
  }

  // ---------------------------------------------------------------------
  // Stripping all trailing pseudo-classes
  // ---------------------------------------------------------------------

  /** The selector `base` followed by the pseudo-classes `ps`, given last first. */
  function Rejoin(mk: Marks, base: string, ps: seq<string>): string {
    if ps == [] then base else Rejoin(mk, base, ps[1..]) + [mk.pseudoMark] + ps[0]
  }

  /**
    The do-while loop of parseFragment: split off pseudo-classes until there
    is none; the result is what is left and the pseudo-classes in the order
    they were split off (last first).
   */
  function StripPseudoClasses(mk: Marks, sel: string): (r: (string, seq<string>))
    ensures Rejoin(mk, r.0, r.1) == sel
    ensures forall p :: p in r.1 ==> p != [] && mk.pseudoMark !in p
    ensures SplitPseudoClass(mk, r.0).1 == []
    decreases |sel|
  {
    var split := SplitPseudoClass(mk, sel);
    if split.1 == [] then (sel, [])
    else
      var rest := StripPseudoClasses(mk, split.0);
      assert ([split.1] + rest.1)[1..] == rest.1;
      (rest.0, [split.1] + rest.1)
  }

  /** A rejoined selector whose pseudo-classes are mark-free ends in a mark only if its base does. */
  lemma RejoinEnd(mk: Marks, base: string, ps: seq<string>)
    requires forall p :: p in ps ==> p != [] && mk.pseudoMark !in p
    requires !EndsWith(base, mk.pseudoMark)
    ensures !EndsWith(Rejoin(mk, base, ps), mk.pseudoMark)
  {
    if ps != [] {
      assert ps[0] in ps;
      var s := Rejoin(mk, base, ps);
      assert s[|s| - 1] == ps[0][|ps[0]| - 1];
    }
  }

  /** Stripping undoes rejoining onto a base without marks. */
  lemma {:induction false} StripRejoin(mk: Marks, base: string, ps: seq<string>)
    requires mk.pseudoMark !in base
    requires forall p :: p in ps ==> p != [] && mk.pseudoMark !in p
    ensures StripPseudoClasses(mk, Rejoin(mk, base, ps)) == (base, ps)
  {
    if ps != [] {
      var tail := ps[1..];
      assert forall p :: p in tail ==> p in ps;
      assert ps[0] in ps;
      RejoinEnd(mk, base, tail);
      SplitJoin(mk, Rejoin(mk, base, tail), ps[0]);
      StripRejoin(mk, base, tail);
      assert [ps[0]] + tail == ps;
    }
  }

  // ---------------------------------------------------------------------
  // Tokenizing the selector proper
  // ---------------------------------------------------------------------

  /**
    pushSelectorTypeIdentifier: records one segment. A class is appended, an
    id replaces the previous one, a tag replaces the previous tag; the global
    case falls through to the tag case and so earns both weights.
   */
  function Push(w: Weights, r: Rule, kind: TypeIdentifier, name: string): (r': Rule)
    ensures r'.pseudoClasses == r.pseudoClasses && r'.structuralPseudoClasses == r.structuralPseudoClasses
    ensures r'.requirements == r.requirements
  {
    match kind
    case GlobalType => r.(tagName := name, specificity := r.specificity + w.ofGlobal + w.ofTag)
    case TagType => r.(tagName := name, specificity := r.specificity + w.ofTag)
    case ClassType => r.(classes := r.classes + [name], specificity := r.specificity + w.ofClass)
    case IdType => r.(id := name, specificity := r.specificity + w.ofId)
  }

  /** The fall-through: a global segment is a tag segment with the global weight added first. */
  lemma GlobalFallsThroughToTag(w: Weights, r: Rule, name: string)
    ensures Push(w, r, GlobalType, name) == Push(w, r.(specificity := r.specificity + w.ofGlobal), TagType, name)
  {
  }

  /** The tokenizer state: the current segment type, the text read since the last delimiter, and the rule so far. */
  datatype Scanner = Scanner(kind: TypeIdentifier, buffer: string, rule: Rule)

  /** Pushes the buffered segment, if any, as its current type. */
  function Flush(w: Weights, st: Scanner): Rule {
    if st.buffer == [] then st.rule else Push(w, st.rule, st.kind, st.buffer)
  }

  /** One character of the loop: a class or id delimiter ends the segment; anything else is buffered. */
  function Step(mk: Marks, w: Weights, st: Scanner, c: char): Scanner {
    if c == mk.classMark then Scanner(ClassType, [], Flush(w, st))
    else if c == mk.idMark then Scanner(IdType, [], Flush(w, st))
    else st.(buffer := st.buffer + [c])
  }

  function Run(mk: Marks, w: Weights, st: Scanner, s: string): (r: Scanner)
    ensures r.rule.pseudoClasses == st.rule.pseudoClasses
    ensures r.rule.structuralPseudoClasses == st.rule.structuralPseudoClasses
    ensures r.rule.requirements == st.rule.requirements
    decreases |s|
  {
    if s == [] then st else Step(mk, w, Run(mk, w, st, s[..|s| - 1]), s[|s| - 1])
  }

  /** After the loop: a last segment that is exactly the global mark is typed global, then it is pushed. */
  function Finish(mk: Marks, w: Weights, st: Scanner): Rule {
    if st.buffer == [] then st.rule
    else Push(w, st.rule, if st.buffer == [mk.globalMark] then GlobalType else st.kind, st.buffer)
  }

  /** The tokenizing loop of parseFragment, starting from the rule `r0` that already holds the pseudo-classes. */
  function Tokenize(mk: Marks, w: Weights, r0: Rule, s: string): (r: Rule)
    ensures r.pseudoClasses == r0.pseudoClasses
    ensures r.structuralPseudoClasses == r0.structuralPseudoClasses
    ensures r.requirements == r0.requirements
  {
    Finish(mk, w, Run(mk, w, Scanner(TagType, [], r0), s))
  }

  // ---------------------------------------------------------------------
  // parseFragment
  // ---------------------------------------------------------------------

  /** The stripped pseudo-classes that are state names, in stripping order. */
  function StatesOf(ps: seq<string>): (r: seq<string>)
    ensures forall p :: p in r <==> p in ps && IsPseudoClassState(p)
    ensures |r| <= |ps|
  {
    if ps == [] then []
    else (if IsPseudoClassState(ps[0]) then [ps[0]] else []) + StatesOf(ps[1..])
  }

  /** The stripped pseudo-classes that are structural (and not states), in stripping order. */
  function StructuralOf(ps: seq<string>): (r: seq<string>)
    ensures forall p :: p in r <==> p in ps && !IsPseudoClassState(p) && IsStructuralPseudoClass(p)
  {
    if ps == [] then []
    else
      (if !IsPseudoClassState(ps[0]) && IsStructuralPseudoClass(ps[0]) then [ps[0]] else [])
      + StructuralOf(ps[1..])
  }

  /** The requirement flags a parsed rule sets: one per non-empty field. */
  function RequirementsOf(r: Rule): set<Requirement> {
    (if r.tagName != [] then {TagName} else {})
    + (if r.id != [] then {Id} else {})
    + (if r.classes != [] then {Class} else {})
    + (if r.pseudoClasses != [] then {PseudoClass} else {})
  }

  /** Each requirement flag is set exactly when its field is non-empty. */
  predicate RequirementsAgree(r: Rule) {
    && (TagName in r.requirements <==> r.tagName != [])
    && (Id in r.requirements <==> r.id != [])
    && (Class in r.requirements <==> r.classes != [])
    && (PseudoClass in r.requirements <==> r.pseudoClasses != [])
  }

  lemma RequirementsOfAgree(t: Rule)
    ensures RequirementsAgree(t.(requirements := RequirementsOf(t)))
  {
  }

  /**
    parseFragment: strip the trailing pseudo-classes (keeping state names
    and structural names, dropping the others), tokenize what is left, set
    the requirement flags and add the pseudo-class weight once per state.
   */
  function ParseFragment(mk: Marks, w: Weights, fragment: string): (r: Rule)
    ensures RequirementsAgree(r)
    ensures forall p :: p in r.pseudoClasses ==> IsPseudoClassState(p)
    ensures forall p :: p in r.structuralPseudoClasses ==> !IsPseudoClassState(p) && IsStructuralPseudoClass(p)
    ensures forall p :: p in r.pseudoClasses || p in r.structuralPseudoClasses ==>
              p in StripPseudoClasses(mk, fragment).1
    ensures r.specificity >= Times(w.ofPseudoClass, |r.pseudoClasses|)
  {
    var stripped := StripPseudoClasses(mk, fragment);
    var states := StatesOf(stripped.1);
    var t := Tokenize(mk, w, Rule([], [], [], states, StructuralOf(stripped.1), 0, {}), stripped.0);
    RequirementsOfAgree(t);
    t.(specificity := t.specificity + Times(w.ofPseudoClass, |states|), requirements := RequirementsOf(t))
  }

  // ---------------------------------------------------------------------
  // Round trip: composing a fragment and parsing it back
  // ---------------------------------------------------------------------

  /** A tag, class or id name that the composed fragment can carry unchanged. */
  predicate PlainName(mk: Marks, n: string) {
    n != [] && n != [mk.globalMark] && mk.classMark !in n && mk.idMark !in n && mk.pseudoMark !in n
  }

  /** The class part of a fragment: each class after a class delimiter. */
  function ClassSuffix(mk: Marks, cs: seq<string>): string {
    if cs == [] then [] else ClassSuffix(mk, cs[..|cs| - 1]) + [mk.classMark] + cs[|cs| - 1]
  }

  function IdSuffix(mk: Marks, id: string): string {
    if id == [] then [] else [mk.idMark] + id
  }

  /** The fragment for a tag, classes, id and pseudo-classes (given last first). */
  function Compose(mk: Marks, tag: string, classes: seq<string>, id: string, ps: seq<string>): string {
    Rejoin(mk, tag + ClassSuffix(mk, classes) + IdSuffix(mk, id), ps)
  }

  /** `n` times the weight `x`, as the source adds it once per segment. */
  function Times(x: nat, n: nat): nat {
    if n == 0 then 0 else Times(x, n - 1) + x
  }

  function TagWeight(w: Weights, tag: string): nat {
    if tag == [] then 0 else w.ofTag
  }

  /** The rule `r0` after pushing a tag and then the classes. */
  function Committed(w: Weights, r0: Rule, tag: string, cs: seq<string>): Rule {
    r0.(tagName := tag, classes := cs, specificity := r0.specificity + TagWeight(w, tag) + Times(w.ofClass, |cs|))
  }

  /** Running over a concatenation runs over each part in turn. */
  lemma {:induction false} RunAppend(mk: Marks, w: Weights, st: Scanner, a: string, b: string)
    ensures Run(mk, w, st, a + b) == Run(mk, w, Run(mk, w, st, a), b)
  {
    if b == [] {
      assert a + b == a;
    } else {
      var init := b[..|b| - 1];
      assert (a + b)[..|a + b| - 1] == a + init;
      RunAppend(mk, w, st, a, init);
    }
  }

  /** Text without class or id delimiters only grows the buffer. */
  lemma {:induction false} RunPlain(mk: Marks, w: Weights, st: Scanner, s: string)
    requires mk.classMark !in s && mk.idMark !in s
    ensures Run(mk, w, st, s) == st.(buffer := st.buffer + s)
  {
    if s != [] {
      var init := s[..|s| - 1];
      assert forall c :: c in init ==> c in s;
      RunPlain(mk, w, st, init);
      assert st.buffer + init + [s[|s| - 1]] == st.buffer + s;
    } else {
      assert st.buffer + s == st.buffer;
    }
  }

  /** A delimiter followed by plain text pushes the buffered segment and starts a new one. */
  lemma RunSegment(mk: Marks, w: Weights, st: Scanner, d: char, x: string)
    requires ValidMarks(mk)
    requires d == mk.classMark || d == mk.idMark
    requires mk.classMark !in x && mk.idMark !in x
    ensures Run(mk, w, st, [d] + x)
            == Scanner(if d == mk.classMark then ClassType else IdType, x, Flush(w, st))
  {
    RunAppend(mk, w, st, [d], x);
    assert [d][..0] == [];
    var after := Run(mk, w, st, [d]);
    RunPlain(mk, w, after, x);
  }

  /** The state after a tag and the classes: the last name is still buffered, the earlier ones are pushed. */
  lemma {:induction false} RunClasses(mk: Marks, w: Weights, r0: Rule, tag: string, cs: seq<string>)
    requires ValidMarks(mk) && r0.tagName == [] && r0.classes == []
    requires mk.classMark !in tag && mk.idMark !in tag
    requires forall c :: c in cs ==> PlainName(mk, c)
    ensures cs == [] ==> Run(mk, w, Scanner(TagType, [], r0), tag + ClassSuffix(mk, cs)) == Scanner(TagType, tag, r0)
    ensures cs != [] ==> Run(mk, w, Scanner(TagType, [], r0), tag + ClassSuffix(mk, cs))
                         == Scanner(ClassType, cs[|cs| - 1], Committed(w, r0, tag, cs[..|cs| - 1]))
    ensures Flush(w, Run(mk, w, Scanner(TagType, [], r0), tag + ClassSuffix(mk, cs))) == Committed(w, r0, tag, cs)
  {
    var start := Scanner(TagType, [], r0);
    if cs == [] {
      assert tag + ClassSuffix(mk, cs) == tag;
      RunPlain(mk, w, start, tag);
      assert [] + tag == tag;
    } else {
      var init := cs[..|cs| - 1];
      assert forall c :: c in init ==> c in cs;
      RunClasses(mk, w, r0, tag, init);
      assert cs[|cs| - 1] in cs;
      RunOneClass(mk, w, r0, tag, cs);
      FlushLastClass(w, r0, tag, cs);
    }
  }

  /** The step of RunClasses: one more class delimiter and name. */
  lemma RunOneClass(mk: Marks, w: Weights, r0: Rule, tag: string, cs: seq<string>)
    requires ValidMarks(mk) && cs != []
    requires PlainName(mk, cs[|cs| - 1])
    requires Flush(w, Run(mk, w, Scanner(TagType, [], r0), tag + ClassSuffix(mk, cs[..|cs| - 1])))
             == Committed(w, r0, tag, cs[..|cs| - 1])
    ensures Run(mk, w, Scanner(TagType, [], r0), tag + ClassSuffix(mk, cs))
            == Scanner(ClassType, cs[|cs| - 1], Committed(w, r0, tag, cs[..|cs| - 1]))
  {
    var start := Scanner(TagType, [], r0);
    var init := cs[..|cs| - 1];
    var last := cs[|cs| - 1];
    var front := tag + ClassSuffix(mk, init);
    assert tag + ClassSuffix(mk, cs) == front + ([mk.classMark] + last);
    RunAppend(mk, w, start, front, [mk.classMark] + last);
    RunSegment(mk, w, Run(mk, w, start, front), mk.classMark, last);
  }

  /** Pushing the buffered last class completes the committed rule. */
  lemma FlushLastClass(w: Weights, r0: Rule, tag: string, cs: seq<string>)
    requires cs != [] && cs[|cs| - 1] != []
    ensures Flush(w, Scanner(ClassType, cs[|cs| - 1], Committed(w, r0, tag, cs[..|cs| - 1])))
            == Committed(w, r0, tag, cs)
  {
    assert cs[..|cs| - 1] + [cs[|cs| - 1]] == cs;
  }

  /** Tokenizing a composed selector yields its tag, classes and id, with the matching weights. */
  lemma TokenizeComposed(mk: Marks, w: Weights, r0: Rule, tag: string, cs: seq<string>, id: string)
    requires ValidMarks(mk) && r0.tagName == [] && r0.classes == [] && r0.id == []
    requires tag == [] || PlainName(mk, tag)
    requires forall c :: c in cs ==> PlainName(mk, c)
    requires id == [] || PlainName(mk, id)
    ensures Tokenize(mk, w, r0, tag + ClassSuffix(mk, cs) + IdSuffix(mk, id))
            == Committed(w, r0, tag, cs).(id := id, specificity := Committed(w, r0, tag, cs).specificity
                                                                  + (if id == [] then 0 else w.ofId))
  {
    RunClasses(mk, w, r0, tag, cs);
    LastBufferPlain(mk, w, r0, tag, cs);
    if id == [] {
      TokenizeWithoutId(mk, w, r0, tag, cs);
    } else {
      TokenizeWithId(mk, w, r0, tag + ClassSuffix(mk, cs), id, Committed(w, r0, tag, cs));
    }
  }

  /** After the tag and classes the buffer holds the tag or the last class, never the global mark. */
  lemma LastBufferPlain(mk: Marks, w: Weights, r0: Rule, tag: string, cs: seq<string>)
    requires tag == [] || PlainName(mk, tag)
    requires forall c :: c in cs ==> PlainName(mk, c)
    requires cs == [] ==> Run(mk, w, Scanner(TagType, [], r0), tag + ClassSuffix(mk, cs)) == Scanner(TagType, tag, r0)
    requires cs != [] ==> Run(mk, w, Scanner(TagType, [], r0), tag + ClassSuffix(mk, cs)).buffer == cs[|cs| - 1]
    ensures Run(mk, w, Scanner(TagType, [], r0), tag + ClassSuffix(mk, cs)).buffer != [mk.globalMark]
  {
    if cs != [] {
      assert cs[|cs| - 1] in cs;
    }
  }

  /** Without an id, the last buffered name is pushed as it is. */
  lemma TokenizeWithoutId(mk: Marks, w: Weights, r0: Rule, tag: string, cs: seq<string>)
    requires Flush(w, Run(mk, w, Scanner(TagType, [], r0), tag + ClassSuffix(mk, cs))) == Committed(w, r0, tag, cs)
    requires Run(mk, w, Scanner(TagType, [], r0), tag + ClassSuffix(mk, cs)).buffer != [mk.globalMark]
    ensures Tokenize(mk, w, r0, tag + ClassSuffix(mk, cs) + IdSuffix(mk, [])) == Committed(w, r0, tag, cs)
  {
    assert tag + ClassSuffix(mk, cs) + IdSuffix(mk, []) == tag + ClassSuffix(mk, cs);
  }

  /** An id segment at the end pushes what came before it, then itself. */
  lemma TokenizeWithId(mk: Marks, w: Weights, r0: Rule, front: string, id: string, before: Rule)
    requires ValidMarks(mk) && PlainName(mk, id)
    requires Flush(w, Run(mk, w, Scanner(TagType, [], r0), front)) == before
    ensures Tokenize(mk, w, r0, front + IdSuffix(mk, id)) == before.(id := id, specificity := before.specificity + w.ofId)
  {
    var start := Scanner(TagType, [], r0);
    RunAppend(mk, w, start, front, [mk.idMark] + id);
    RunSegment(mk, w, Run(mk, w, start, front), mk.idMark, id);
  }

  /** Several id segments, each after an id delimiter. */
  function IdsSuffix(mk: Marks, ids: seq<string>): string {
    if ids == [] then [] else IdsSuffix(mk, ids[..|ids| - 1]) + IdSuffix(mk, ids[|ids| - 1])
  }

  /** Each id segment replaces the id pushed before it and adds the id weight again. */
  lemma {:induction false} RunIds(mk: Marks, w: Weights, st: Scanner, front: string, ids: seq<string>)
    requires ValidMarks(mk)
    requires forall x :: x in ids ==> PlainName(mk, x)
    ensures ids == [] ==> Run(mk, w, st, front + IdsSuffix(mk, ids)) == Run(mk, w, st, front)
    ensures ids != [] ==>
              var before := Flush(w, Run(mk, w, st, front));
              && Run(mk, w, st, front + IdsSuffix(mk, ids)).buffer == ids[|ids| - 1]
              && Flush(w, Run(mk, w, st, front + IdsSuffix(mk, ids)))
                 == before.(id := ids[|ids| - 1], specificity := before.specificity + Times(w.ofId, |ids|))
  {
    if ids == [] {
      assert front + IdsSuffix(mk, ids) == front;
    } else {
      var init := ids[..|ids| - 1];
      assert forall x :: x in init ==> x in ids;
      assert ids[|ids| - 1] in ids;
      RunIds(mk, w, st, front, init);
      RunIdsStep(mk, w, st, front, ids);
    }
  }

  /** One more id segment, given what the ids before it leave. */
  lemma {:induction false} RunIdsStep(mk: Marks, w: Weights, st: Scanner, front: string, ids: seq<string>)
    requires ValidMarks(mk) && ids != [] && PlainName(mk, ids[|ids| - 1])
    requires var init := ids[..|ids| - 1];
             var before := Flush(w, Run(mk, w, st, front));
             Flush(w, Run(mk, w, st, front + IdsSuffix(mk, init)))
             == if init == [] then before
                else before.(id := init[|init| - 1], specificity := before.specificity + Times(w.ofId, |init|))
    ensures var before := Flush(w, Run(mk, w, st, front));
            && Run(mk, w, st, front + IdsSuffix(mk, ids)).buffer == ids[|ids| - 1]
            && Flush(w, Run(mk, w, st, front + IdsSuffix(mk, ids)))
               == before.(id := ids[|ids| - 1], specificity := before.specificity + Times(w.ofId, |ids|))
  {
    var mid := front + IdsSuffix(mk, ids[..|ids| - 1]);
    IdsSuffixSnoc(mk, front, ids);
    RunIdSegment(mk, w, st, mid, ids[|ids| - 1]);
    IdPushed(w, Flush(w, Run(mk, w, st, front)), Flush(w, Run(mk, w, st, mid)),
             Run(mk, w, st, front + IdsSuffix(mk, ids)), ids);
  }

  /** The step of RunIds on rules alone: the last id replaces the ones pushed before and adds its weight. */
  lemma {:induction false} IdPushed(w: Weights, before: Rule, pushed: Rule, after: Scanner, ids: seq<string>)
    requires ids != [] && ids[|ids| - 1] != []
    requires var init := ids[..|ids| - 1];
             pushed == if init == [] then before
                       else before.(id := init[|init| - 1], specificity := before.specificity + Times(w.ofId, |init|))
    requires after == Scanner(IdType, ids[|ids| - 1], pushed)
    ensures after.buffer == ids[|ids| - 1]
    ensures Flush(w, after) == before.(id := ids[|ids| - 1], specificity := before.specificity + Times(w.ofId, |ids|))
  {
    assert Times(w.ofId, |ids|) == Times(w.ofId, |ids| - 1) + w.ofId;
  }

  /** The last id's segment ends the text of the ids before it. */
  lemma {:induction false} IdsSuffixSnoc(mk: Marks, front: string, ids: seq<string>)
    requires ids != [] && ids[|ids| - 1] != []
    ensures front + IdsSuffix(mk, ids) == (front + IdsSuffix(mk, ids[..|ids| - 1])) + ([mk.idMark] + ids[|ids| - 1])
  {
    assert IdsSuffix(mk, ids) == IdsSuffix(mk, ids[..|ids| - 1]) + ([mk.idMark] + ids[|ids| - 1]);
  }

  /** An id segment after any text: the text so far is pushed and the id is buffered. */
  lemma {:induction false} RunIdSegment(mk: Marks, w: Weights, st: Scanner, mid: string, x: string)
    requires ValidMarks(mk) && PlainName(mk, x)
    ensures Run(mk, w, st, mid + ([mk.idMark] + x)) == Scanner(IdType, x, Flush(w, Run(mk, w, st, mid)))
  {
    RunAppend(mk, w, st, mid, [mk.idMark] + x);
    RunSegment(mk, w, Run(mk, w, st, mid), mk.idMark, x);
  }

  /** The global mark is none of the other three delimiters. */
  predicate DistinctGlobal(mk: Marks) {
    mk.globalMark != mk.classMark && mk.globalMark != mk.idMark && mk.globalMark != mk.pseudoMark
  }

  /**
    A fragment whose selector part is the global mark alone: the mark is
    the tag, and the fall-through of pushSelectorTypeIdentifier earns it
    both the global and the tag weight.
   */
  lemma ParseGlobal(mk: Marks, w: Weights, ps: seq<string>)
    requires ValidMarks(mk) && DistinctGlobal(mk)
    requires forall p :: p in ps ==> p != [] && mk.pseudoMark !in p
    ensures var r := ParseFragment(mk, w, Rejoin(mk, [mk.globalMark], ps));
            && r.tagName == [mk.globalMark] && r.classes == [] && r.id == []
            && r.pseudoClasses == StatesOf(ps)
            && r.specificity == w.ofGlobal + w.ofTag + Times(w.ofPseudoClass, |StatesOf(ps)|)
  {
    var g := [mk.globalMark];
    StripRejoin(mk, g, ps);
    ParseOfStripped(mk, w, Rejoin(mk, g, ps), g, ps);
    TokenizeGlobal(mk, w, Rule([], [], [], StatesOf(ps), StructuralOf(ps), 0, {}));
  }

  /** The global mark alone is pushed as the global type. */
  lemma TokenizeGlobal(mk: Marks, w: Weights, r0: Rule)
    requires DistinctGlobal(mk)
    ensures Tokenize(mk, w, r0, [mk.globalMark])
            == r0.(tagName := [mk.globalMark], specificity := r0.specificity + w.ofGlobal + w.ofTag)
  {
    var g := [mk.globalMark];
    RunPlain(mk, w, Scanner(TagType, [], r0), g);
    assert [] + g == g;
  }

  /**
    The global mark followed by classes or an id is pushed when the first
    delimiter is read, as an ordinary tag: only a last segment is checked
    for the global mark, so the global weight is not added.
   */
  lemma ParseGlobalBeforeSegments(mk: Marks, w: Weights, classes: seq<string>, id: string, ps: seq<string>)
    requires ValidMarks(mk) && DistinctGlobal(mk)
    requires forall c :: c in classes ==> PlainName(mk, c)
    requires id == [] || PlainName(mk, id)
    requires classes != [] || id != []
    requires forall p :: p in ps ==> p != [] && mk.pseudoMark !in p
    ensures var r := ParseFragment(mk, w, Compose(mk, [mk.globalMark], classes, id, ps));
            && r.tagName == [mk.globalMark] && r.classes == classes && r.id == id
            && r.specificity == w.ofTag + Times(w.ofClass, |classes|) + (if id == [] then 0 else w.ofId)
                                + Times(w.ofPseudoClass, |StatesOf(ps)|)
  {
    var g := [mk.globalMark];
    var front := g + ClassSuffix(mk, classes);
    var base := front + IdSuffix(mk, id);
    var r0 := Rule([], [], [], StatesOf(ps), StructuralOf(ps), 0, {});
    var start := Scanner(TagType, [], r0);
    ClassSuffixMarkFree(mk, classes);
    assert mk.pseudoMark !in base;
    StripRejoin(mk, base, ps);
    ParseOfStripped(mk, w, Compose(mk, g, classes, id, ps), base, ps);
    RunClasses(mk, w, r0, g, classes);
    if id == [] {
      assert classes[|classes| - 1] in classes;
      TokenizeWithoutId(mk, w, r0, g, classes);
    } else {
      TokenizeWithId(mk, w, r0, front, id, Committed(w, r0, g, classes));
    }
  }

  /**
    A fragment with several id segments keeps the last id, while every id
    segment adds the id weight.
   */
  lemma {:induction false} ParseRepeatedIds(mk: Marks, w: Weights, tag: string, classes: seq<string>, ids: seq<string>, ps: seq<string>)
    requires ValidMarks(mk)
    requires tag == [] || PlainName(mk, tag)
    requires forall c :: c in classes ==> PlainName(mk, c)
    requires ids != [] && forall x :: x in ids ==> PlainName(mk, x)
    requires forall p :: p in ps ==> p != [] && mk.pseudoMark !in p
    ensures ParseFragment(mk, w, Rejoin(mk, tag + ClassSuffix(mk, classes) + IdsSuffix(mk, ids), ps)).tagName == tag
    ensures ParseFragment(mk, w, Rejoin(mk, tag + ClassSuffix(mk, classes) + IdsSuffix(mk, ids), ps)).classes == classes
    ensures ParseFragment(mk, w, Rejoin(mk, tag + ClassSuffix(mk, classes) + IdsSuffix(mk, ids), ps)).id == ids[|ids| - 1]
    ensures ParseFragment(mk, w, Rejoin(mk, tag + ClassSuffix(mk, classes) + IdsSuffix(mk, ids), ps)).specificity
            == TagWeight(w, tag) + Times(w.ofClass, |classes|) + Times(w.ofId, |ids|) + Times(w.ofPseudoClass, |StatesOf(ps)|)
  {
    var base := tag + ClassSuffix(mk, classes) + IdsSuffix(mk, ids);
    var r0 := Rule([], [], [], StatesOf(ps), StructuralOf(ps), 0, {});
    RepeatedIdsStrip(mk, tag, classes, ids, ps);
    TokenizeRepeatedIds(mk, w, r0, tag, classes, ids);
    var c := Committed(w, r0, tag, classes);
    ParseOfTokens(mk, w, Rejoin(mk, base, ps), base, ps,
                  c.(id := ids[|ids| - 1], specificity := c.specificity + Times(w.ofId, |ids|)));
  }

  /** What parseFragment keeps of the tokenized selector part: tag, classes, id, and the weight plus the states'. */
  lemma ParseOfTokens(mk: Marks, w: Weights, fragment: string, base: string, ps: seq<string>, t: Rule)
    requires StripPseudoClasses(mk, fragment) == (base, ps)
    requires Tokenize(mk, w, Rule([], [], [], StatesOf(ps), StructuralOf(ps), 0, {}), base) == t
    ensures ParseFragment(mk, w, fragment).tagName == t.tagName
    ensures ParseFragment(mk, w, fragment).classes == t.classes
    ensures ParseFragment(mk, w, fragment).id == t.id
    ensures ParseFragment(mk, w, fragment).specificity == t.specificity + Times(w.ofPseudoClass, |StatesOf(ps)|)
  {
    ParseOfStripped(mk, w, fragment, base, ps);
  }

  /** Stripping a fragment with several ids gives back its selector part and its pseudo-classes. */
  lemma RepeatedIdsStrip(mk: Marks, tag: string, classes: seq<string>, ids: seq<string>, ps: seq<string>)
    requires ValidMarks(mk)
    requires tag == [] || PlainName(mk, tag)
    requires forall c :: c in classes ==> PlainName(mk, c)
    requires forall x :: x in ids ==> PlainName(mk, x)
    requires forall p :: p in ps ==> p != [] && mk.pseudoMark !in p
    ensures var base := tag + ClassSuffix(mk, classes) + IdsSuffix(mk, ids);
            StripPseudoClasses(mk, Rejoin(mk, base, ps)) == (base, ps)
  {
    var base := tag + ClassSuffix(mk, classes) + IdsSuffix(mk, ids);
    IdsSuffixMarkFree(mk, ids);
    ClassSuffixMarkFree(mk, classes);
    assert mk.pseudoMark !in base;
    StripRejoin(mk, base, ps);
  }

  /** Tokenizing a tag, classes and several ids: the last id stays, every id is weighed. */
  lemma {:induction false} TokenizeRepeatedIds(mk: Marks, w: Weights, r0: Rule, tag: string, classes: seq<string>, ids: seq<string>)
    requires ValidMarks(mk) && r0.tagName == [] && r0.classes == []
    requires tag == [] || PlainName(mk, tag)
    requires forall c :: c in classes ==> PlainName(mk, c)
    requires ids != [] && forall x :: x in ids ==> PlainName(mk, x)
    ensures var c := Committed(w, r0, tag, classes);
            Tokenize(mk, w, r0, tag + ClassSuffix(mk, classes) + IdsSuffix(mk, ids))
            == c.(id := ids[|ids| - 1], specificity := c.specificity + Times(w.ofId, |ids|))
  {
    var front := tag + ClassSuffix(mk, classes);
    RunClasses(mk, w, r0, tag, classes);
    RunIds(mk, w, Scanner(TagType, [], r0), front, ids);
    assert ids[|ids| - 1] in ids;
  }

  /** Id segments carry no pseudo-class mark. */
  lemma {:induction false} IdsSuffixMarkFree(mk: Marks, ids: seq<string>)
    requires ValidMarks(mk)
    requires forall x :: x in ids ==> PlainName(mk, x)
    ensures mk.pseudoMark !in IdsSuffix(mk, ids)
  {
    if ids != [] {
      var init := ids[..|ids| - 1];
      assert forall x :: x in init ==> x in ids;
      assert ids[|ids| - 1] in ids;
      IdsSuffixMarkFree(mk, init);
    }
  }

  /** `#x#y`: two id segments leave the id y and count the id weight twice. */
  lemma {:induction false} TwoIdsKeepTheLast(mk: Marks, w: Weights, x: string, y: string)
    requires ValidMarks(mk) && PlainName(mk, x) && PlainName(mk, y)
    ensures ParseFragment(mk, w, [mk.idMark] + x + [mk.idMark] + y).id == y
    ensures ParseFragment(mk, w, [mk.idMark] + x + [mk.idMark] + y).specificity == w.ofId + w.ofId
  {
    var ids := [x, y];
    assert ids[..1] == [x] && [x][..0] == [];
    assert IdsSuffix(mk, [x]) == [] + IdSuffix(mk, x);
    assert IdsSuffix(mk, ids) == IdsSuffix(mk, [x]) + IdSuffix(mk, y);
    assert IdsSuffix(mk, ids) == [mk.idMark] + x + [mk.idMark] + y;
    assert [] + ClassSuffix(mk, []) + IdsSuffix(mk, ids) == IdsSuffix(mk, ids);
    ParseRepeatedIds(mk, w, [], [], ids, []);
    assert Times(w.ofId, 1) == w.ofId;
    assert Times(w.ofId, |ids|) == w.ofId + w.ofId;
  }

  /** Characters of a composed selector that are not delimiters come from the names. */
  lemma {:induction false} ClassSuffixMarkFree(mk: Marks, cs: seq<string>)
    requires ValidMarks(mk)
    requires forall c :: c in cs ==> PlainName(mk, c)
    ensures mk.pseudoMark !in ClassSuffix(mk, cs)
  {
    if cs != [] {
      var init := cs[..|cs| - 1];
      assert forall c :: c in init ==> c in cs;
      assert cs[|cs| - 1] in cs;
      ClassSuffixMarkFree(mk, init);
    }
  }

  /**
    Parsing a composed fragment gives back its parts: the tag, the classes in
    order, the id, the state pseudo-classes and the structural ones (in
    stripping order), with the specificity summed from the weights.
   */
  lemma ParseComposed(mk: Marks, w: Weights, tag: string, classes: seq<string>, id: string, ps: seq<string>)
    requires ValidMarks(mk)
    requires tag == [] || PlainName(mk, tag)
    requires forall c :: c in classes ==> PlainName(mk, c)
    requires id == [] || PlainName(mk, id)
    requires forall p :: p in ps ==> p != [] && mk.pseudoMark !in p
    ensures ParseFragment(mk, w, Compose(mk, tag, classes, id, ps)).tagName == tag
    ensures ParseFragment(mk, w, Compose(mk, tag, classes, id, ps)).classes == classes
    ensures ParseFragment(mk, w, Compose(mk, tag, classes, id, ps)).id == id
    ensures ParseFragment(mk, w, Compose(mk, tag, classes, id, ps)).pseudoClasses == StatesOf(ps)
    ensures ParseFragment(mk, w, Compose(mk, tag, classes, id, ps)).structuralPseudoClasses == StructuralOf(ps)
    ensures ParseFragment(mk, w, Compose(mk, tag, classes, id, ps)).specificity
            == TagWeight(w, tag) + Times(w.ofClass, |classes|) + (if id == [] then 0 else w.ofId)
               + Times(w.ofPseudoClass, |StatesOf(ps)|)
  {
    var base := tag + ClassSuffix(mk, classes) + IdSuffix(mk, id);
    var r0 := Rule([], [], [], StatesOf(ps), StructuralOf(ps), 0, {});
    ComposedStrips(mk, tag, classes, id, ps);
    TokenizeComposed(mk, w, r0, tag, classes, id);
    ParseOfStripped(mk, w, Compose(mk, tag, classes, id, ps), base, ps);
  }

  /** Stripping a composed fragment gives back its selector part and its pseudo-classes. */
  lemma ComposedStrips(mk: Marks, tag: string, classes: seq<string>, id: string, ps: seq<string>)
    requires ValidMarks(mk)
    requires tag == [] || PlainName(mk, tag)
    requires forall c :: c in classes ==> PlainName(mk, c)
    requires id == [] || PlainName(mk, id)
    requires forall p :: p in ps ==> p != [] && mk.pseudoMark !in p
    ensures StripPseudoClasses(mk, Compose(mk, tag, classes, id, ps))
            == (tag + ClassSuffix(mk, classes) + IdSuffix(mk, id), ps)
  {
    var base := tag + ClassSuffix(mk, classes) + IdSuffix(mk, id);
    ClassSuffixMarkFree(mk, classes);
    assert mk.pseudoMark !in base;
    StripRejoin(mk, base, ps);
  }

  /** parseFragment in terms of what stripping returned. */
  lemma ParseOfStripped(mk: Marks, w: Weights, fragment: string, base: string, ps: seq<string>)
    requires StripPseudoClasses(mk, fragment) == (base, ps)
    ensures var t := Tokenize(mk, w, Rule([], [], [], StatesOf(ps), StructuralOf(ps), 0, {}), base);
            ParseFragment(mk, w, fragment)
            == t.(specificity := t.specificity + Times(w.ofPseudoClass, |StatesOf(ps)|), requirements := RequirementsOf(t))
  {
  }

  // ---------------------------------------------------------------------
  // Matching
  // ---------------------------------------------------------------------

  /** hasClass: the rule lists the class. */
  function HasClass(r: Rule, cls: string): (b: bool)
    ensures b <==> cls in r.classes
  {
    Listed(r.classes, cls, 0)
  }

  /** hasPseudoClass: the rule lists the state pseudo-class. */
  function HasPseudoClass(r: Rule, cls: string): (b: bool)
    ensures b <==> cls in r.pseudoClasses
  {
    Listed(r.pseudoClasses, cls, 0)
  }

  /** hasStructuralPseudoClass: the rule lists the structural pseudo-class. */
  function HasStructuralPseudoClass(r: Rule, cls: string): (b: bool)
    ensures b <==> cls in r.structuralPseudoClasses
  {
    Listed(r.structuralPseudoClasses, cls, 0)
  }

  /** The class loop of matches: every class of the element is one the rule lists. */
  function ElementClassesListed(r: Rule, cs: seq<string>): (b: bool)
    ensures b <==> forall c :: c in cs ==> c in r.classes
  {
    if cs == [] then true
    else
      assert forall c :: c in cs ==> c == cs[0] || c in cs[1..];
      HasClass(r, cs[0]) && ElementClassesListed(r, cs[1..])
  }

  /** The pseudo-class loop of matches: some active pseudo-class of the element is one the rule lists. */
  function SomePseudoClassListed(r: Rule, ps: seq<string>): (b: bool)
    ensures b <==> exists p :: p in ps && p in r.pseudoClasses
  {
    if ps == [] then false
    else
      assert forall p :: p in ps ==> p == ps[0] || p in ps[1..];
      HasPseudoClass(r, ps[0]) || SomePseudoClassListed(r, ps[1..])
  }

  /** The flags the element earns against the rule, with the class test passed in. */
  function MatchFlags(r: Rule, e: Element, applyPseudo: bool, classesOk: bool): set<Requirement> {
    (if r.tagName != [] && e.tag != [] && r.tagName == e.tag then {TagName} else {})
    + (if r.id != [] && e.id != [] && r.id == e.id then {Id} else {})
    + (if r.classes != [] && e.classes != [] && classesOk then {Class} else {})
    + (if applyPseudo && e.pseudoClasses != []
          && (r.pseudoClasses == [] || SomePseudoClassListed(r, e.pseudoClasses))
       then {PseudoClass} else {})
  }

  /** The decision of matches from the earned flags: all of them against the requirements, or all but the pseudo-class one. */
  function Decide(r: Rule, flags: set<Requirement>, applyPseudo: bool): bool {
    if r.tagName == "*" then true
    else if applyPseudo then r.requirements == flags
    else r.requirements - {PseudoClass} == flags
  }

  /** matches, as written: the class test asks that the element's classes be among the rule's. */
  function Matches(r: Rule, e: Element, applyPseudo: bool): bool {
    Decide(r, MatchFlags(r, e, applyPseudo, ElementClassesListed(r, e.classes)), applyPseudo)
  }

  /** Every class of the rule is one the element carries. */
  function RuleClassesCarried(r: Rule, cs: seq<string>): (b: bool)
    ensures b <==> forall c :: c in r.classes ==> c in cs
  {
    forall c | c in r.classes :: Listed(cs, c, 0)
  }

  /** matches with the class test the other way round: the rule's classes must be among the element's. */
  function MatchesFixed(r: Rule, e: Element, applyPseudo: bool): bool {
    Decide(r, MatchFlags(r, e, applyPseudo, RuleClassesCarried(r, e.classes)), applyPseudo)
  }

  /** The tag and id tests, which the two versions share. */
  predicate TagAndIdAgree(r: Rule, e: Element) {
    (r.tagName == [] || r.tagName == e.tag) && (r.id == [] || r.id == e.id)
  }

  /** The pseudo-class test: without pseudo-classes the element must have none active, else one must be listed. */
  predicate PseudoClassesAgree(r: Rule, e: Element) {
    if r.pseudoClasses == [] then e.pseudoClasses == []
    else exists p :: p in e.pseudoClasses && p in r.pseudoClasses
  }

  /** Equal flag sets agree on every flag. */
  lemma FlagsEqual(a: set<Requirement>, b: set<Requirement>)
    requires TagName in a <==> TagName in b
    requires Id in a <==> Id in b
    requires Class in a <==> Class in b
    requires PseudoClass in a <==> PseudoClass in b
    ensures a == b
  {
    forall x | x in a ensures x in b {
      match x
      case TagName =>
      case Id =>
      case Class =>
      case PseudoClass =>
    }
    forall x | x in b ensures x in a {
      match x
      case TagName =>
      case Id =>
      case Class =>
      case PseudoClass =>
    }
  }

  /** The decision spelled out, for either class test. */
  lemma DecideMeaning(r: Rule, e: Element, applyPseudo: bool, classesOk: bool)
    requires RequirementsAgree(r) && r.tagName != "*"
    ensures Decide(r, MatchFlags(r, e, applyPseudo, classesOk), applyPseudo) <==>
              TagAndIdAgree(r, e)
              && (r.classes == [] || (e.classes != [] && classesOk))
              && (applyPseudo ==> PseudoClassesAgree(r, e))
  {
    var flags := MatchFlags(r, e, applyPseudo, classesOk);
    var need := if applyPseudo then r.requirements else r.requirements - {PseudoClass};
    var meaning := TagAndIdAgree(r, e) && (r.classes == [] || (e.classes != [] && classesOk))
                   && (applyPseudo ==> PseudoClassesAgree(r, e));
    if meaning {
      FlagsEqual(need, flags);
    }
    if need == flags {
      assert TagName in need <==> TagName in flags;
      assert Id in need <==> Id in flags;
      assert Class in need <==> Class in flags;
      assert applyPseudo ==> (PseudoClass in need <==> PseudoClass in flags);
    }
  }

  /**
    For a rule whose flags agree with its fields and whose tag is not `*`:
    the element matches exactly when the tag and id agree, every class of
    the element is one of the rule's, and (when pseudo-classes apply) the
    active pseudo-classes agree.
   */
  lemma MatchesMeaning(r: Rule, e: Element, applyPseudo: bool)
    requires RequirementsAgree(r) && r.tagName != "*"
    ensures Matches(r, e, applyPseudo) <==>
              TagAndIdAgree(r, e)
              && (r.classes == [] || (e.classes != [] && forall c :: c in e.classes ==> c in r.classes))
              && (applyPseudo ==> PseudoClassesAgree(r, e))
  {
    DecideMeaning(r, e, applyPseudo, ElementClassesListed(r, e.classes));
  }

  /** The corrected test: every class of the rule is one the element carries. */
  lemma MatchesFixedMeaning(r: Rule, e: Element, applyPseudo: bool)
    requires RequirementsAgree(r) && r.tagName != "*"
    ensures MatchesFixed(r, e, applyPseudo) <==>
              TagAndIdAgree(r, e)
              && (forall c :: c in r.classes ==> c in e.classes)
              && (applyPseudo ==> PseudoClassesAgree(r, e))
  {
    DecideMeaning(r, e, applyPseudo, RuleClassesCarried(r, e.classes));
    if r.classes != [] && RuleClassesCarried(r, e.classes) {
      assert r.classes[0] in r.classes;
    }
  }

  /** A rule whose tag is `*` matches every element. */
  lemma GlobalTagMatchesAll(r: Rule, e: Element, applyPseudo: bool)
    requires r.tagName == "*"
    ensures Matches(r, e, applyPseudo) && MatchesFixed(r, e, applyPseudo)
  {
  }

  /** Parsed rules have the flags the meaning lemmas need. */
  lemma ParsedRulesAgree(mk: Marks, w: Weights, fragment: string)
    ensures RequirementsAgree(ParseFragment(mk, w, fragment))
  {
  }

  /** The rule `.a` does not match an element with classes `a` and `b` as written, and does once corrected. */
  lemma ExtraElementClassDefeatsMatch(w: Weights)
    ensures var r := Rule([], [], ["a"], [], [], w.ofClass, {Class});
            var e := Element("button", [], ["a", "b"], []);
            !Matches(r, e, false) && MatchesFixed(r, e, false)
  {
    var r := Rule([], [], ["a"], [], [], w.ofClass, {Class});
    var e := Element("button", [], ["a", "b"], []);
    assert "b" in e.classes && "b" !in r.classes;
    MatchesMeaning(r, e, false);
    MatchesFixedMeaning(r, e, false);
  }
}
