/** The bracket-expression matcher (`regfilter`) and its helper for escaped
    letters inside a class (`regfilterspcl`).

    `Filter(cls, tst)` decides whether the byte `tst` belongs to the class
    whose interior bytes (without the outer brackets) are `cls`. It is a
    single left-to-right scan with five pieces of state, modelled as
    written: a `found` flag, a `strip` flag that cancels `found` at the end,
    the previous literal byte (the low end of a following range), a nesting
    `mode` for `-[...]` subtraction, and a negation flag set by any `^`.
    Escaped letters go through `regfilterspcl` as written, truncated class
    texts included.

    A range dash met before any literal byte compares `tst` with an
    uninitialised variable. Unless `tst` lies above the range's high end,
    the scan is finished under both outcomes of that comparison, and the
    result is `None`, the source's outcome not being determined by its
    inputs, only when the two verdicts differ.

    `FilterIntended` is the scan with both defects corrected: escaped class
    letters mean what they mean outside a class, and a leading dash is a
    member of its own. */
module CharClass {
  import opened Wrappers

  predicate IsLetter(c: char) {
    'A' <= c <= 'Z' || 'a' <= c <= 'z'
  }

  /** State of the scanning loop. `low` is the outcome assumed for the
      source's comparison of `tst` with the uninitialised low end of a range,
      once a range with no byte before it has needed it; later such ranges
      compare the same two values and so get the same outcome. */
  datatype FilterState = FilterState(found: bool, strip: bool, prev: Option<char>, mode: int, negated: bool, low: Option<bool>)

  const Start := FilterState(false, false, None, 0, false, None)

  /** The answer a finished scan gives. */
  predicate Verdict(st: FilterState) {
    st.found && !st.strip
  }

  /** The update applied after every member test. `hit` is the test's result
      after negation: at nesting level 0 it records a match; at an odd level it
      strips (cancels) it; at an even non-zero level it un-strips. The parity
      is that of the source's `mode & 1`, which for a negative `mode` agrees
      with Dafny's Euclidean `%`. */
  function Credit(st: FilterState, hit: bool): FilterState {
    if !hit then st
    else if st.mode == 0 then st.(found := true)
    else if st.mode % 2 == 1 then st.(strip := true)
    else st.(strip := false)
  }

  /** The bracket expressions the compiler substitutes for the escapes
      `\c \C \d \D \s \S \i \I` (the source's `regspcl`), outer brackets
      included. `\s` is a space and a tab. */
  predicate IsShorthand(c: char) {
    c == 'c' || c == 'C' || c == 'd' || c == 'D' || c == 's' || c == 'S' || c == 'i' || c == 'I'
  }

  function ShorthandClass(c: char): (r: seq<char>)
    requires IsShorthand(c)
    ensures |r| >= 4 && r[0] == '[' && r[|r| - 1] == ']'
    ensures '\\' !in r
  {
    if c == 'c' then "[-._:A-Za-z0-9]"
    else if c == 'C' then "[^-._:A-Za-z0-9]"
    else if c == 'd' then "[0-9]"
    else if c == 'D' then "[^0-9]"
    else if c == 's' then "[ \t]"
    else if c == 'S' then "[^ \t]"
    else if c == 'i' then "[a-zA-Z_:]"
    else "[^a-zA-Z_:]"
  }

  /** The six letters `regfilterspcl` gives a built-in class inside a class. */
  predicate ClassEscape(c: char) {
    c == 'd' || c == 'D' || c == 's' || c == 'S' || c == 'i' || c == 'I'
  }

  /** `regfilterspcl` as written, and as used by `Filter`: the source passes
      each built-in class from its opening `[` and with a length that stops
      short of the end, so the class scanned is a prefix of the bracketed
      text. Every other letter is a literal. */
  function FilterEscapeAsWritten(c: char, tst: char): Option<bool>
    requires IsLetter(c)
    decreases 0, 100
  {
    if c == 'd' then Filter(ShorthandClass('d')[..5], tst)
    else if c == 'D' then Filter(ShorthandClass('D')[..6], tst)
    else if c == 's' then Filter(ShorthandClass('s')[..2], tst)
    else if c == 'S' then Filter(ShorthandClass('S')[..3], tst)
    else if c == 'i' then Filter(ShorthandClass('i')[..8], tst)
    else if c == 'I' then Filter(ShorthandClass('I')[..9], tst)
    else Filter([c], tst)
  }

  /** `regfilterspcl` as evidently intended, and as used by `FilterIntended`:
      a built-in class is tested without its outer brackets, exactly as the
      matcher tests a leaf holding the same class; any other letter stands
      for itself. It is stated in closed form; `FilterEscapeClasses` and
      `FilterEscapeLiteral` prove it is what scanning the class text gives.
      Since `^` negates member by member, `\S` and `\I` accept every byte. */
  function FilterEscape(c: char, tst: char): bool
    requires IsLetter(c)
  {
    if c == 'd' then '0' <= tst <= '9'
    else if c == 'D' then !('0' <= tst <= '9')
    else if c == 's' then tst == ' ' || tst == '\t'
    else if c == 'S' then true
    else if c == 'i' then 'a' <= tst <= 'z' || 'A' <= tst <= 'Z' || tst == '_' || tst == ':'
    else if c == 'I' then true
    else tst == c
  }

  /** `regfilter` as written: does `tst` belong to the class `cls`? */
  function Filter(cls: seq<char>, tst: char): Option<bool>
    decreases if '\\' in cls then 1 else 0, |cls| + 1
  {
    match Scan(cls, tst, 0, Start)
    case None => None
    case Some(st) => Some(Verdict(st))
  }

  /** `regfilter` as evidently intended: escaped letters are tested by
      `FilterEscape`, and a dash with no byte before it is a member of its
      own, as a leading `-` is in XML Schema classes. */
  function FilterIntended(cls: seq<char>, tst: char): Option<bool>
  {
    match Scan(cls, tst, 0, Start, true)
    case None => None
    case Some(st) => Some(Verdict(st))
  }

  /** The scanning loop of `regfilter` from index `i` on; `intended` selects
      the corrected scan and never changes during one. */
  function Scan(cls: seq<char>, tst: char, i: nat, st: FilterState, intended: bool := false): Option<FilterState>
    requires i <= |cls|
    decreases if '\\' in cls then 1 else 0, |cls| - i
  {
    if i == |cls| then Some(st)
    else
      var ch := cls[i];
      if ch == '\\' && i + 1 == |cls| then
        // a backslash that ends the class is skipped
        Some(st)
      else if ch == '\\' && IsLetter(cls[i + 1]) then
        var expr := if intended then Some(FilterEscape(cls[i + 1], tst)) else FilterEscapeAsWritten(cls[i + 1], tst);
        match expr
        case None => None
        case Some(hit) => Scan(cls, tst, i + 2, Credit(st, hit != st.negated), intended)
      else if ch == '^' then
        Scan(cls, tst, i + 1, st.(negated := true), intended)
      else if ch == '-' then
        if i + 1 < |cls| && cls[i + 1] == '[' then
          Scan(cls, tst, i + 2, st.(mode := st.mode + 1), intended)
        else if i + 1 < |cls| then
          match st.prev
          case Some(lo) =>
            Scan(cls, tst, i + 2, Credit(st, (lo <= tst <= cls[i + 1]) != st.negated), intended)
          case None =>
            if intended then
              // a dash with no byte before it stands for itself
              var st1 := st.(prev := Some('-'));
              if cls[i + 1] == '-' then Scan(cls, tst, i + 1, st1, intended)
              else Scan(cls, tst, i + 1, Credit(st1, ('-' == tst) != st.negated), intended)
            else if cls[i + 1] < tst then
              // above the high end the range test fails whatever the low end
              Scan(cls, tst, i + 2, Credit(st, st.negated), intended)
            else
              match st.low
              case Some(u) => Scan(cls, tst, i + 2, Credit(st, u != st.negated), intended)
              case None =>
                // the low end is an uninitialised variable in the source: the
                // scan goes on under both outcomes of the comparison, and the
                // answer is determined only when both give the same verdict
                var yes := Scan(cls, tst, i + 2, Credit(st.(low := Some(true)), !st.negated), intended);
                var no := Scan(cls, tst, i + 2, Credit(st.(low := Some(false)), st.negated), intended);
                if yes.Some? && no.Some? && Verdict(yes.value) == Verdict(no.value) then yes else None
        else
          // a dash that ends the class tests nothing, but negation still counts
          Some(Credit(st, st.negated))
      else if ch == ']' then
        // the source's `break` here leaves only the switch: every `]`
        // lowers the nesting level and the scan goes on
        Scan(cls, tst, i + 1, st.(mode := st.mode - 1), intended)
      else
        // a literal byte, possibly escaped (`\` before a non-letter)
        var lit := if ch == '\\' then cls[i + 1] else ch;
        var j := if ch == '\\' then i + 2 else i + 1;
        var st1 := st.(prev := Some(lit));
        if j < |cls| && cls[j] == '-' then
          // the byte is the low end of a range: it is not tested itself
          Scan(cls, tst, j, st1, intended)
        else
          Scan(cls, tst, j, Credit(st1, (lit == tst) != st.negated), intended)
  }

  // ---------------------------------------------------------------------
  // Reference semantics for classes built from plain members
  // ---------------------------------------------------------------------

  /** A class member: one byte, or an inclusive range of bytes. */
  datatype Member = Single(c: char) | Range(lo: char, hi: char)

  /** Bytes with no special meaning to the scanner. */
  predicate Plain(c: char) {
    c != '\\' && c != '^' && c != '-' && c != ']'
  }

  predicate PlainMember(m: Member) {
    match m
    case Single(c) => Plain(c)
    case Range(lo, hi) => Plain(lo) && Plain(hi) && hi != '['
  }

  predicate PlainMembers(ms: seq<Member>) {
    forall k :: 0 <= k < |ms| ==> PlainMember(ms[k])
  }

  function Spell(m: Member): seq<char> {
    match m
    case Single(c) => [c]
    case Range(lo, hi) => [lo, '-', hi]
  }

  function SpellAll(ms: seq<Member>): seq<char> {
    if |ms| == 0 then [] else Spell(ms[0]) + SpellAll(ms[1..])
  }

  /** The first byte of a member's spelling, which the scanner remembers. */
  function Lead(m: Member): char {
    match m
    case Single(c) => c
    case Range(lo, _) => lo
  }

  predicate Covers(m: Member, tst: char) {
    match m
    case Single(c) => tst == c
    case Range(lo, hi) => lo <= tst <= hi
  }

  predicate AnyCovers(ms: seq<Member>, tst: char) {
    exists k :: 0 <= k < |ms| && Covers(ms[k], tst)
  }

  predicate AnyMisses(ms: seq<Member>, tst: char) {
    exists k :: 0 <= k < |ms| && !Covers(ms[k], tst)
  }

  /** A class of plain members with an optional trailing `-[...]` subtraction. */
  datatype ClassSpec = ClassSpec(members: seq<Member>, minus: Option<seq<Member>>)

  predicate PlainSpec(spec: ClassSpec) {
    PlainMembers(spec.members) && (spec.minus.Some? ==> PlainMembers(spec.minus.value))
  }

  function SpellClass(spec: ClassSpec): seq<char> {
    SpellAll(spec.members) + (if spec.minus.Some? then "-[" + SpellAll(spec.minus.value) + "]" else [])
  }

  /** The members whose test is performed: a single byte written right before
      `-[` is taken as the low end of a range and never tested. */
  function Tested(spec: ClassSpec): seq<Member> {
    var ms := spec.members;
    if spec.minus.Some? && |ms| > 0 && ms[|ms| - 1].Single? then ms[..|ms| - 1] else ms
  }

  /** Membership as the class is meant to be read: some tested member covers
      the byte and no member of the subtracted list does. */
  predicate Accepts(spec: ClassSpec, tst: char) {
    AnyCovers(Tested(spec), tst) && !(spec.minus.Some? && AnyCovers(spec.minus.value, tst))
  }

  /** The effect of scanning one plain member: its first byte is remembered
      and its test, after negation, is credited. */
  function TestMember(st: FilterState, m: Member, tst: char): FilterState {
    Credit(st.(prev := Some(Lead(m))), Covers(m, tst) != st.negated)
  }

  /** The combined effect of scanning a list of plain members. */
  function Absorb(st: FilterState, ms: seq<Member>, tst: char): FilterState
    decreases |ms|
  {
    if |ms| == 0 then st
    else Absorb(TestMember(st, ms[0], tst), ms[1..], tst)
  }

  lemma {:induction false} SpellAllAppend(a: seq<Member>, b: seq<Member>)
    ensures SpellAll(a + b) == SpellAll(a) + SpellAll(b)
    decreases |a|
  {
    if |a| > 0 {
      assert (a + b)[1..] == a[1..] + b;
      SpellAllAppend(a[1..], b);
    } else {
      assert a + b == b;
    }
  }


  /** Member `m` is spelled in `cls` at index `i`. */
  predicate MemberAt(cls: seq<char>, i: nat, m: Member) {
    match m
    case Single(c) => i < |cls| && cls[i] == c
    case Range(lo, hi) => i + 2 < |cls| && cls[i] == lo && cls[i + 1] == '-' && cls[i + 2] == hi
  }

  /** The members `ms` are spelled one after another in `cls` from index `i`. */
  predicate SpelledAt(cls: seq<char>, i: nat, ms: seq<Member>)
    decreases |ms|
  {
    |ms| == 0 || (MemberAt(cls, i, ms[0]) && SpelledAt(cls, i + |Spell(ms[0])|, ms[1..]))
  }

  /** Members spelled between two stretches of text are found there. */
  lemma {:induction false} SpelledAtAppend(pre: seq<char>, ms: seq<Member>, post: seq<char>)
    ensures SpelledAt(pre + SpellAll(ms) + post, |pre|, ms)
    decreases |ms|
  {
    if |ms| > 0 {
      var m := ms[0];
      var cls := pre + SpellAll(ms) + post;
      assert SpellAll(ms) == Spell(m) + SpellAll(ms[1..]);
      assert cls == (pre + Spell(m)) + SpellAll(ms[1..]) + post;
      assert cls[|pre|..|pre| + |Spell(m)|] == Spell(m);
      match m {
        case Single(c) =>
          assert cls[|pre|] == Spell(m)[0];
        case Range(lo, hi) =>
          assert cls[|pre|] == Spell(m)[0] && cls[|pre| + 1] == Spell(m)[1] && cls[|pre| + 2] == Spell(m)[2];
      }
      SpelledAtAppend(pre + Spell(m), ms[1..], post);
    }
  }

  /** Scanning the spelling of plain members has the effect of `Absorb`,
      provided a trailing single byte is not followed by a dash. */
  lemma {:induction false} ScanSpelled(cls: seq<char>, tst: char, i: nat, ms: seq<Member>, st: FilterState, intended: bool := false)
    requires PlainMembers(ms) && SpelledAt(cls, i, ms) && i + |SpellAll(ms)| <= |cls|
    requires |ms| == 0 || i + |SpellAll(ms)| == |cls| || cls[i + |SpellAll(ms)|] != '-' || ms[|ms| - 1].Range?
    ensures Scan(cls, tst, i, st, intended) == Scan(cls, tst, i + |SpellAll(ms)|, Absorb(st, ms, tst), intended)
    decreases |ms|
  {
    if |ms| > 0 {
      var m := ms[0];
      var rest := ms[1..];
      var w := |Spell(m)|;
      assert |SpellAll(ms)| == w + |SpellAll(rest)|;
      assert PlainMember(m);
      if |rest| > 0 {
        assert MemberAt(cls, i + w, rest[0]) && PlainMember(rest[0]);
        assert rest[|rest| - 1] == ms[|ms| - 1];
      } else {
        assert ms[|ms| - 1] == m;
      }
      ScanMember(cls, tst, i, m, st, intended);
      if |rest| > 0 {
        ScanSpelled(cls, tst, i + w, rest, TestMember(st, m, tst), intended);
      }
    }
  }

  /** One plain member is scanned as one test, unless it is a single byte
      followed by a dash. */
  lemma ScanMember(cls: seq<char>, tst: char, i: nat, m: Member, st: FilterState, intended: bool := false)
    requires PlainMember(m) && MemberAt(cls, i, m)
    requires m.Range? || i + 1 == |cls| || cls[i + 1] != '-'
    ensures i + |Spell(m)| <= |cls|
    ensures Scan(cls, tst, i, st, intended) == Scan(cls, tst, i + |Spell(m)|, TestMember(st, m, tst), intended)
  {
    match m {
      case Single(c) => ScanSingle(cls, tst, i, st, intended);
      case Range(lo, hi) => ScanRange(cls, tst, i, st, intended);
    }
  }

  /** One plain byte not followed by a dash is tested on its own. */
  lemma ScanSingle(cls: seq<char>, tst: char, i: nat, st: FilterState, intended: bool := false)
    requires i < |cls| && Plain(cls[i]) && (i + 1 == |cls| || cls[i + 1] != '-')
    ensures Scan(cls, tst, i, st, intended)
         == Scan(cls, tst, i + 1, Credit(st.(prev := Some(cls[i])), (cls[i] == tst) != st.negated), intended)
  {
  }

  /** A plain range `lo-hi` is tested as a whole. */
  lemma ScanRange(cls: seq<char>, tst: char, i: nat, st: FilterState, intended: bool := false)
    requires i + 3 <= |cls| && Plain(cls[i]) && cls[i + 1] == '-' && Plain(cls[i + 2]) && cls[i + 2] != '['
    ensures Scan(cls, tst, i, st, intended)
         == Scan(cls, tst, i + 3, Credit(st.(prev := Some(cls[i])), (cls[i] <= tst <= cls[i + 2]) != st.negated), intended)
  {
    assert Scan(cls, tst, i, st, intended) == Scan(cls, tst, i + 1, st.(prev := Some(cls[i])), intended);
  }

  /** A `-[` opens a subtraction: the nesting level goes up. */
  lemma ScanOpen(cls: seq<char>, tst: char, i: nat, st: FilterState)
    requires i + 1 < |cls| && cls[i] == '-' && cls[i + 1] == '['
    ensures Scan(cls, tst, i, st) == Scan(cls, tst, i + 2, st.(mode := st.mode + 1))
  {
  }

  /** A `]` lowers the nesting level. */
  lemma ScanClose(cls: seq<char>, tst: char, i: nat, st: FilterState, intended: bool := false)
    requires i < |cls| && cls[i] == ']'
    ensures Scan(cls, tst, i, st, intended) == Scan(cls, tst, i + 1, st.(mode := st.mode - 1), intended)
  {
  }

  /** A `^` negates what follows. */
  lemma ScanCaret(cls: seq<char>, tst: char, i: nat, st: FilterState, intended: bool := false)
    requires i < |cls| && cls[i] == '^'
    ensures Scan(cls, tst, i, st, intended) == Scan(cls, tst, i + 1, st.(negated := true), intended)
  {
  }

  /** The scan ends at the end of the class text. */
  lemma ScanDone(cls: seq<char>, tst: char, st: FilterState, intended: bool := false)
    ensures Scan(cls, tst, |cls|, st, intended) == Some(st)
  {
  }

  /** A plain byte followed by a dash is only remembered. */
  lemma ScanRangeStart(cls: seq<char>, tst: char, i: nat, st: FilterState)
    requires i + 1 < |cls| && Plain(cls[i]) && cls[i + 1] == '-'
    ensures Scan(cls, tst, i, st) == Scan(cls, tst, i + 1, st.(prev := Some(cls[i])))
  {
  }

  /** Absorbing members at nesting level 0 records whether any test hit. */
  lemma {:induction false} AbsorbLevelZero(st: FilterState, ms: seq<Member>, tst: char)
    requires st.mode == 0
    ensures Absorb(st, ms, tst).mode == 0 && Absorb(st, ms, tst).strip == st.strip
    ensures Absorb(st, ms, tst).negated == st.negated
    ensures Absorb(st, ms, tst).found
        == (st.found || (if st.negated then AnyMisses(ms, tst) else AnyCovers(ms, tst)))
    decreases |ms|
  {
    if |ms| > 0 {
      var st1 := TestMember(st, ms[0], tst);
      AbsorbLevelZero(st1, ms[1..], tst);
      if st.negated {
        if AnyMisses(ms[1..], tst) {
          var k :| 0 <= k < |ms[1..]| && !Covers(ms[1..][k], tst);
          assert !Covers(ms[k + 1], tst);
        }
        if AnyMisses(ms, tst) && Covers(ms[0], tst) {
          var k :| 0 <= k < |ms| && !Covers(ms[k], tst);
          assert !Covers(ms[1..][k - 1], tst);
        }
      } else {
        if AnyCovers(ms[1..], tst) {
          var k :| 0 <= k < |ms[1..]| && Covers(ms[1..][k], tst);
          assert Covers(ms[k + 1], tst);
        }
        if AnyCovers(ms, tst) && !Covers(ms[0], tst) {
          var k :| 0 <= k < |ms| && Covers(ms[k], tst);
          assert Covers(ms[1..][k - 1], tst);
        }
      }
    }
  }

  /** Absorbing un-negated members at an odd nesting level strips on any hit. */
  lemma {:induction false} AbsorbOddLevel(st: FilterState, ms: seq<Member>, tst: char)
    requires st.mode % 2 == 1 && !st.negated
    ensures Absorb(st, ms, tst).mode == st.mode && Absorb(st, ms, tst).found == st.found
    ensures !Absorb(st, ms, tst).negated
    ensures Absorb(st, ms, tst).strip == (st.strip || AnyCovers(ms, tst))
    decreases |ms|
  {
    if |ms| > 0 {
      var st1 := TestMember(st, ms[0], tst);
      AbsorbOddLevel(st1, ms[1..], tst);
      if AnyCovers(ms[1..], tst) {
        var k :| 0 <= k < |ms[1..]| && Covers(ms[1..][k], tst);
        assert Covers(ms[k + 1], tst);
      }
      if AnyCovers(ms, tst) && !Covers(ms[0], tst) {
        var k :| 0 <= k < |ms| && Covers(ms[k], tst);
        assert Covers(ms[1..][k - 1], tst);
      }
    }
  }

  /** A list of plain members, optionally followed by the closing bracket,
      accepts exactly the bytes some member covers; the corrected scan
      agrees, since such a class has no escape and no leading dash. */
  lemma FilterPlainList(ms: seq<Member>, tail: seq<char>, tst: char)
    requires PlainMembers(ms) && (tail == [] || tail == "]")
    ensures Filter(SpellAll(ms) + tail, tst) == Some(AnyCovers(ms, tst))
    ensures FilterIntended(SpellAll(ms) + tail, tst) == Some(AnyCovers(ms, tst))
  {
    var cls := SpellAll(ms) + tail;
    var n := |SpellAll(ms)|;
    SpelledAtAppend([], ms, tail);
    assert [] + SpellAll(ms) + tail == cls;
    assert n < |cls| ==> cls[n] == ']';
    var st := Absorb(Start, ms, tst);
    AbsorbLevelZero(Start, ms, tst);
    ScanSpelled(cls, tst, 0, ms, Start);
    ScanSpelled(cls, tst, 0, ms, Start, true);
    if tail == "]" {
      ScanClose(cls, tst, n, st);
      ScanDone(cls, tst, st.(mode := -1));
      ScanClose(cls, tst, n, st, true);
      ScanDone(cls, tst, st.(mode := -1), true);
    } else {
      ScanDone(cls, tst, st);
      ScanDone(cls, tst, st, true);
    }
  }

  /** A `^` negates every member test that follows it, each one separately:
      the class accepts a byte that a member before the `^` covers or that a
      member after it fails to cover. */
  lemma FilterFlipped(pre: seq<Member>, post: seq<Member>, tail: seq<char>, tst: char)
    requires PlainMembers(pre) && PlainMembers(post) && (tail == [] || tail == "]")
    ensures Filter(SpellAll(pre) + "^" + SpellAll(post) + tail, tst)
         == Some(AnyCovers(pre, tst) || AnyMisses(post, tst))
  {
    var cls := SpellAll(pre) + "^" + SpellAll(post) + tail;
    var n := |SpellAll(pre)|;
    var m := |SpellAll(post)|;
    FlippedLayout(SpellAll(pre), SpellAll(post), tail);
    SpelledAtAppend([], pre, "^" + SpellAll(post) + tail);
    SpelledAtAppend(SpellAll(pre) + "^", post, tail);
    ScanSpelled(cls, tst, 0, pre, Start);
    var st1 := Absorb(Start, pre, tst);
    AbsorbLevelZero(Start, pre, tst);
    var st2 := st1.(negated := true);
    ScanCaret(cls, tst, n, st1);
    ScanSpelled(cls, tst, n + 1, post, st2);
    var st3 := Absorb(st2, post, tst);
    AbsorbLevelZero(st2, post, tst);
    if tail == "]" {
      ScanClose(cls, tst, n + 1 + m, st3);
      ScanDone(cls, tst, st3.(mode := -1));
    } else {
      ScanDone(cls, tst, st3);
    }
  }

  /** How a class with one `^` is laid out. */
  lemma FlippedLayout(a: seq<char>, b: seq<char>, tail: seq<char>)
    requires tail == [] || tail == "]"
    ensures a + "^" + b + tail == [] + a + ("^" + b + tail)
    ensures a + "^" + b + tail == (a + "^") + b + tail
    ensures (a + "^" + b + tail)[|a|] == '^'
    ensures |a + "^" + b + tail| == |a| + 1 + |b| + |tail|
    ensures |tail| > 0 ==> (a + "^" + b + tail)[|a| + 1 + |b|] == ']'
  {
  }

  /** A negated class of one plain member is the exact complement of it. */
  lemma FilterNegatedSingle(m: Member, tst: char)
    requires PlainMember(m)
    ensures Filter("^" + Spell(m), tst) == Some(!Covers(m, tst))
  {
    var post := [m];
    assert SpellAll(post) == Spell(m);
    assert SpellAll([]) + "^" + SpellAll(post) + [] == "^" + Spell(m);
    FilterFlipped([], post, [], tst);
    assert AnyMisses(post, tst) == !Covers(m, tst) by {
      if !Covers(m, tst) { assert !Covers(post[0], tst); }
    }
  }

  /** A negated class of two different plain bytes accepts every byte, since
      each byte differs from at least one of them. */
  lemma FilterNegatedPair(a: char, b: char, tst: char)
    requires Plain(a) && Plain(b) && a != b
    ensures Filter(['^', a, b], tst) == Some(true)
  {
    var post := [Single(a), Single(b)];
    assert post[1..] == [Single(b)] && SpellAll(post[1..]) == [b];
    assert SpellAll(post) == [a, b];
    assert SpellAll([]) + "^" + SpellAll(post) + [] == ['^', a, b];
    FilterFlipped([], post, [], tst);
    if tst == a { assert !Covers(post[1], tst); } else { assert !Covers(post[0], tst); }
  }

  /** Without `^`, a class of plain members with an optional trailing
      subtraction accepts a byte exactly when a tested member covers it and no
      subtracted member does. */
  lemma FilterAccepts(spec: ClassSpec, tst: char)
    requires PlainSpec(spec)
    ensures Filter(SpellClass(spec), tst) == Some(Accepts(spec, tst))
  {
    var cls := SpellClass(spec);
    var ms := spec.members;
    if spec.minus.None? {
      assert cls == SpellAll(ms) + [];
      FilterPlainList(ms, [], tst);
    } else {
      var sub := spec.minus.value;
      var x := ScanBeforeSubtraction(ms, sub, tst);
      ScanSubtraction(ms, sub, tst, x);
    }
  }

  /** How a class with a subtraction is laid out. */
  lemma SubtractionLayout(a: seq<char>, b: seq<char>)
    ensures a + "-[" + b + "]" == [] + a + ("-[" + b + "]")
    ensures a + "-[" + b + "]" == (a + "-[") + b + "]"
    ensures |a + "-[" + b + "]"| == |a| + 3 + |b|
    ensures (a + "-[" + b + "]")[|a|] == '-' && (a + "-[" + b + "]")[|a| + 1] == '['
    ensures (a + "-[" + b + "]")[|a| + 2 + |b|] == ']'
  {
  }

  /** The members in front of a `-[`: afterwards `found` says whether a tested
      member covered the byte. */
  lemma ScanBeforeSubtraction(ms: seq<Member>, sub: seq<Member>, tst: char) returns (x: FilterState)
    requires PlainMembers(ms)
    ensures var cls := SpellClass(ClassSpec(ms, Some(sub)));
      |SpellAll(ms)| < |cls| && Scan(cls, tst, 0, Start) == Scan(cls, tst, |SpellAll(ms)|, x)
    ensures x.mode == 0 && !x.strip && !x.negated
    ensures x.found == AnyCovers(Tested(ClassSpec(ms, Some(sub))), tst)
  {
    var cls := SpellClass(ClassSpec(ms, Some(sub)));
    assert cls == SpellAll(ms) + "-[" + SpellAll(sub) + "]";
    SubtractionLayout(SpellAll(ms), SpellAll(sub));
    if |ms| > 0 && ms[|ms| - 1].Single? {
      x := ScanBeforeDash(ms, sub, tst);
    } else {
      assert Tested(ClassSpec(ms, Some(sub))) == ms;
      SpelledAtAppend([], ms, "-[" + SpellAll(sub) + "]");
      ScanSpelled(cls, tst, 0, ms, Start);
      x := Absorb(Start, ms, tst);
      AbsorbLevelZero(Start, ms, tst);
    }
  }

  /** A single byte right before `-[` only becomes the remembered byte. */
  lemma ScanBeforeDash(ms: seq<Member>, sub: seq<Member>, tst: char) returns (x: FilterState)
    requires PlainMembers(ms) && |ms| > 0 && ms[|ms| - 1].Single?
    ensures var cls := SpellClass(ClassSpec(ms, Some(sub)));
      |SpellAll(ms)| < |cls| && Scan(cls, tst, 0, Start) == Scan(cls, tst, |SpellAll(ms)|, x)
    ensures x.mode == 0 && !x.strip && !x.negated
    ensures x.found == AnyCovers(ms[..|ms| - 1], tst)
  {
    var cls := SpellClass(ClassSpec(ms, Some(sub)));
    var front := ms[..|ms| - 1];
    var c := ms[|ms| - 1].c;
    assert PlainMember(ms[|ms| - 1]);
    DashLayout(ms, front, c, sub);
    x := ScanDashAt(cls, tst, front, c);
  }

  /** How the members in front of `-[` are laid out when the last one is a
      single byte. */
  lemma DashLayout(ms: seq<Member>, front: seq<Member>, c: char, sub: seq<Member>)
    requires |ms| > 0 && front == ms[..|ms| - 1] && ms[|ms| - 1] == Single(c)
    ensures var cls := SpellClass(ClassSpec(ms, Some(sub)));
      && |SpellAll(ms)| == |SpellAll(front)| + 1
      && SpelledAt(cls, 0, front)
      && |SpellAll(front)| + 1 < |cls|
      && cls[|SpellAll(front)|] == c && cls[|SpellAll(front)| + 1] == '-'
  {
    var cls := SpellClass(ClassSpec(ms, Some(sub)));
    var rest := "-[" + SpellAll(sub) + "]";
    DashSpelling(ms, front, c);
    assert cls == SpellAll(ms) + rest;
    DashConcat(SpellAll(front), c, rest);
    SpelledAtAppend([], front, [c] + rest);
  }

  lemma DashSpelling(ms: seq<Member>, front: seq<Member>, c: char)
    requires |ms| > 0 && front == ms[..|ms| - 1] && ms[|ms| - 1] == Single(c)
    ensures SpellAll(ms) == SpellAll(front) + [c]
  {
    assert ms == front + [Single(c)];
    SpellAllAppend(front, [Single(c)]);
    assert SpellAll([Single(c)]) == [c];
  }

  lemma DashConcat(f: seq<char>, c: char, rest: seq<char>)
    requires |rest| >= 2 && rest[0] == '-'
    ensures (f + [c]) + rest == [] + f + ([c] + rest)
    ensures |f| + 1 < |(f + [c]) + rest|
    ensures ((f + [c]) + rest)[|f|] == c && ((f + [c]) + rest)[|f| + 1] == '-'
  {
  }

  /** Scanning plain members and then a single byte followed by a dash. */
  lemma ScanDashAt(cls: seq<char>, tst: char, front: seq<Member>, c: char) returns (x: FilterState)
    requires PlainMembers(front) && Plain(c) && SpelledAt(cls, 0, front)
    requires |SpellAll(front)| + 1 < |cls| && cls[|SpellAll(front)|] == c && cls[|SpellAll(front)| + 1] == '-'
    ensures Scan(cls, tst, 0, Start) == Scan(cls, tst, |SpellAll(front)| + 1, x)
    ensures x.mode == 0 && !x.strip && !x.negated
    ensures x.found == AnyCovers(front, tst)
  {
    var f := |SpellAll(front)|;
    ScanSpelled(cls, tst, 0, front, Start);
    var st1 := Absorb(Start, front, tst);
    AbsorbLevelZero(Start, front, tst);
    x := st1.(prev := Some(c));
    ScanRangeStart(cls, tst, f, st1);
  }

  /** A `-[...]` list after the main members: afterwards `strip` says whether a
      subtracted member covered the byte. */
  lemma ScanSubtraction(ms: seq<Member>, sub: seq<Member>, tst: char, x: FilterState)
    requires PlainMembers(sub) && x.mode == 0 && !x.strip && !x.negated
    ensures var cls := SpellClass(ClassSpec(ms, Some(sub)));
      |SpellAll(ms)| < |cls| && Scan(cls, tst, |SpellAll(ms)|, x) == Some(Absorb(x.(mode := 1), sub, tst).(mode := 0))
    ensures Absorb(x.(mode := 1), sub, tst).found == x.found
    ensures Absorb(x.(mode := 1), sub, tst).strip == AnyCovers(sub, tst)
  {
    var cls := SpellClass(ClassSpec(ms, Some(sub)));
    assert cls == SpellAll(ms) + "-[" + SpellAll(sub) + "]";
    SubtractionLayout(SpellAll(ms), SpellAll(sub));
    SpelledAtAppend(SpellAll(ms) + "-[", sub, "]");
    ScanSubtractionAt(cls, tst, |SpellAll(ms)|, sub, x);
  }

  /** Scanning `-[`, plain members and `]` that end the class text. */
  lemma ScanSubtractionAt(cls: seq<char>, tst: char, n: nat, sub: seq<Member>, x: FilterState)
    requires PlainMembers(sub) && x.mode == 0 && !x.strip && !x.negated
    requires n + 3 + |SpellAll(sub)| == |cls| && cls[n] == '-' && cls[n + 1] == '['
    requires SpelledAt(cls, n + 2, sub) && cls[n + 2 + |SpellAll(sub)|] == ']'
    ensures Scan(cls, tst, n, x) == Some(Absorb(x.(mode := 1), sub, tst).(mode := 0))
    ensures Absorb(x.(mode := 1), sub, tst).found == x.found
    ensures Absorb(x.(mode := 1), sub, tst).strip == AnyCovers(sub, tst)
  {
    var k := |SpellAll(sub)|;
    var st3 := x.(mode := 1);
    ScanOpen(cls, tst, n, x);
    ScanSpelled(cls, tst, n + 2, sub, st3);
    var st4 := Absorb(st3, sub, tst);
    AbsorbOddLevel(st3, sub, tst);
    ScanClose(cls, tst, n + 2 + k, st4);
    ScanDone(cls, tst, st4.(mode := 0));
  }

  lemma {:induction false} AbsorbLastLead(st: FilterState, ms: seq<Member>, tst: char)
    requires |ms| > 0
    ensures Absorb(st, ms, tst).prev == Some(Lead(ms[|ms| - 1]))
    decreases |ms|
  {
    if |ms| > 1 {
      AbsorbLastLead(Credit(st.(prev := Some(Lead(ms[0]))), Covers(ms[0], tst) != st.negated), ms[1..], tst);
    }
  }

  /** The subtraction example: `a-z-[aeiou]` accepts exactly the lower-case consonants. */
  lemma FilterConsonants(tst: char)
    ensures Filter("a-z-[aeiou]", tst)
         == Some('a' <= tst <= 'z' && tst != 'a' && tst != 'e' && tst != 'i' && tst != 'o' && tst != 'u')
  {
    var vowels := [Single('a'), Single('e'), Single('i'), Single('o'), Single('u')];
    var spec := ClassSpec([Range('a', 'z')], Some(vowels));
    assert SpellAll(vowels) == "aeiou" by {
      assert SpellAll(vowels[4..]) == "u";
      assert SpellAll(vowels[3..]) == "ou";
      assert SpellAll(vowels[2..]) == "iou";
      assert SpellAll(vowels[1..]) == "eiou";
    }
    assert SpellAll([Range('a', 'z')]) == "a-z";
    assert SpellClass(spec) == "a-z-[aeiou]";
    FilterAccepts(spec, tst);
    assert Tested(spec) == [Range('a', 'z')];
    assert AnyCovers([Range('a', 'z')], tst) == ('a' <= tst <= 'z');
    assert AnyCovers(vowels, tst) == (tst == 'a' || tst == 'e' || tst == 'i' || tst == 'o' || tst == 'u') by {
      if tst == 'a' { assert Covers(vowels[0], tst); }
      if tst == 'e' { assert Covers(vowels[1], tst); }
      if tst == 'i' { assert Covers(vowels[2], tst); }
      if tst == 'o' { assert Covers(vowels[3], tst); }
      if tst == 'u' { assert Covers(vowels[4], tst); }
    }
  }

  /** What each escaped letter tests inside a class as the source is
      written. Because of the start and lengths it passes, every built-in
      class also contains `[`; `\s` misses
      the tab; `\i` misses `:`; `\I` accepts every byte, since its negated members are
      tested one by one and no byte lies in both `a-z` and `A-Z`. */
  lemma FilterEscapeAsWrittenClasses(tst: char)
    ensures FilterEscapeAsWritten('d', tst) == Some(tst == '[' || '0' <= tst <= '9')
    ensures FilterEscapeAsWritten('D', tst) == Some(!('0' <= tst <= '9'))
    ensures FilterEscapeAsWritten('s', tst) == Some(tst == '[' || tst == ' ')
    ensures FilterEscapeAsWritten('S', tst) == Some(tst != ' ')
    ensures FilterEscapeAsWritten('i', tst) == Some(tst == '[' || 'a' <= tst <= 'z' || 'A' <= tst <= 'Z' || tst == '_')
    ensures FilterEscapeAsWritten('I', tst) == Some(true)
  {
    EscapeDigits(tst);
    EscapeBlanks(tst);
    EscapeNames(tst);
  }

  lemma BracketMember(tst: char)
    ensures SpellAll([Single('[')]) == "["
    ensures AnyCovers([Single('[')], tst) == (tst == '[')
  {
    if tst == '[' { assert Covers([Single('[')][0], tst); }
  }

  lemma EscapeDigits(tst: char)
    ensures FilterEscapeAsWritten('d', tst) == Some(tst == '[' || '0' <= tst <= '9')
    ensures FilterEscapeAsWritten('D', tst) == Some(!('0' <= tst <= '9'))
  {
    var bracket := [Single('[')];
    BracketMember(tst);
    var digits := [Range('0', '9')];
    assert SpellAll(digits) == "0-9";
    assert AnyCovers(digits, tst) == ('0' <= tst <= '9') by {
      if '0' <= tst <= '9' { assert Covers(digits[0], tst); }
    }
    assert AnyMisses(digits, tst) == !('0' <= tst <= '9') by {
      if !('0' <= tst <= '9') { assert !Covers(digits[0], tst); }
    }
    var d := bracket + digits;
    SpellAllAppend(bracket, digits);
    assert ShorthandClass('d')[..5] == SpellAll(d) + "]";
    FilterPlainList(d, "]", tst);
    AnyCoversAppend(bracket, digits, tst);
    assert ShorthandClass('D')[..6] == SpellAll(bracket) + "^" + SpellAll(digits) + "]";
    FilterFlipped(bracket, digits, "]", tst);
  }

  lemma EscapeBlanks(tst: char)
    ensures FilterEscapeAsWritten('s', tst) == Some(tst == '[' || tst == ' ')
    ensures FilterEscapeAsWritten('S', tst) == Some(tst != ' ')
  {
    var bracket := [Single('[')];
    BracketMember(tst);
    var sp := [Single('['), Single(' ')];
    assert SpellAll(sp[1..]) == " ";
    assert ShorthandClass('s')[..2] == SpellAll(sp) + [];
    FilterPlainList(sp, [], tst);
    assert AnyCovers(sp, tst) == (tst == '[' || tst == ' ') by {
      if tst == '[' { assert Covers(sp[0], tst); }
      if tst == ' ' { assert Covers(sp[1], tst); }
    }
    var blank := [Single(' ')];
    assert SpellAll(blank) == " ";
    assert ShorthandClass('S')[..3] == SpellAll(bracket) + "^" + SpellAll(blank) + [];
    FilterFlipped(bracket, blank, [], tst);
    assert AnyMisses(blank, tst) == (tst != ' ') by {
      if tst != ' ' { assert !Covers(blank[0], tst); }
    }
  }

  lemma EscapeNames(tst: char)
    ensures FilterEscapeAsWritten('i', tst) == Some(tst == '[' || 'a' <= tst <= 'z' || 'A' <= tst <= 'Z' || tst == '_')
    ensures FilterEscapeAsWritten('I', tst) == Some(true)
  {
    var letters := [Range('a', 'z'), Range('A', 'Z')];
    assert SpellAll(letters[1..]) == "A-Z";
    assert SpellAll(letters) == "a-zA-Z";
    EscapeNamesPlain(letters, tst);
    EscapeNamesFlipped(letters, tst);
  }

  lemma EscapeNamesPlain(letters: seq<Member>, tst: char)
    requires letters == [Range('a', 'z'), Range('A', 'Z')] && SpellAll(letters) == "a-zA-Z"
    ensures FilterEscapeAsWritten('i', tst) == Some(tst == '[' || 'a' <= tst <= 'z' || 'A' <= tst <= 'Z' || tst == '_')
  {
    var bracket := [Single('[')];
    BracketMember(tst);
    var name := bracket + letters + [Single('_')];
    SpellAllAppend(bracket, letters);
    SpellAllAppend(bracket + letters, [Single('_')]);
    assert SpellAll([Single('_')]) == "_";
    assert ShorthandClass('i')[..8] == SpellAll(name) + [];
    FilterPlainList(name, [], tst);
    assert AnyCovers(name, tst) == (tst == '[' || 'a' <= tst <= 'z' || 'A' <= tst <= 'Z' || tst == '_') by {
      if tst == '[' { assert Covers(name[0], tst); }
      if 'a' <= tst <= 'z' { assert Covers(name[1], tst); }
      if 'A' <= tst <= 'Z' { assert Covers(name[2], tst); }
      if tst == '_' { assert Covers(name[3], tst); }
    }
  }

  lemma EscapeNamesFlipped(letters: seq<Member>, tst: char)
    requires letters == [Range('a', 'z'), Range('A', 'Z')] && SpellAll(letters) == "a-zA-Z"
    ensures FilterEscapeAsWritten('I', tst) == Some(true)
  {
    var bracket := [Single('[')];
    BracketMember(tst);
    var negated := letters + [Single('_')];
    SpellAllAppend(letters, [Single('_')]);
    assert SpellAll([Single('_')]) == "_";
    assert ShorthandClass('I')[..9] == SpellAll(bracket) + "^" + SpellAll(negated) + [];
    FilterFlipped(bracket, negated, [], tst);
    if 'a' <= tst <= 'z' { assert !Covers(negated[1], tst); } else { assert !Covers(negated[0], tst); }
  }

  /** Any other escaped letter inside a class stands for itself. */
  lemma FilterEscapeLiteral(c: char, tst: char)
    requires IsLetter(c)
    ensures Filter([c], tst) == Some(tst == c)
    ensures !ClassEscape(c) ==> FilterEscape(c, tst) == (tst == c) && FilterEscapeAsWritten(c, tst) == Some(tst == c)
  {
    assert [c] == SpellAll([Single(c)]) + [];
    FilterPlainList([Single(c)], [], tst);
    assert AnyCovers([Single(c)], tst) == (tst == c) by {
      if tst == c { assert Covers([Single(c)][0], tst); }
    }
  }

  lemma AnyCoversAppend(a: seq<Member>, b: seq<Member>, tst: char)
    ensures AnyCovers(a + b, tst) == (AnyCovers(a, tst) || AnyCovers(b, tst))
  {
    if AnyCovers(a, tst) {
      var k :| 0 <= k < |a| && Covers(a[k], tst);
      assert (a + b)[k] == a[k];
    }
    if AnyCovers(b, tst) {
      var k :| 0 <= k < |b| && Covers(b[k], tst);
      assert (a + b)[|a| + k] == b[k];
    }
  }

  /** An escaped letter alone in a class: the scan as written gives what
      `regfilterspcl` as written gives, the corrected scan what `FilterEscape`
      states. */
  lemma FilterEscaped(c: char, tst: char)
    requires IsLetter(c)
    ensures Filter(['\\', c], tst) == FilterEscapeAsWritten(c, tst)
    ensures FilterIntended(['\\', c], tst) == Some(FilterEscape(c, tst))
  {
    var cls := ['\\', c];
    match FilterEscapeAsWritten(c, tst) {
      case None =>
      case Some(hit) => assert Scan(cls, tst, 0, Start) == Scan(cls, tst, 2, Credit(Start, hit));
    }
    assert Scan(cls, tst, 0, Start, true) == Scan(cls, tst, 2, Credit(Start, FilterEscape(c, tst)), true);
  }

  /** The discrepancy: as written, `[\d]` accepts `[`; as intended it does
      not, just as the class `[0-9]` does not. */
  lemma EscapeBracketDiscrepancy()
    ensures FilterEscapeAsWritten('d', '[') == Some(true) && Filter("\\d", '[') == Some(true)
    ensures Filter(ShorthandClass('d')[1..4], '[') == Some(false) && !FilterEscape('d', '[')
    ensures FilterIntended("\\d", '[') == Some(false)
  {
    EscapeDigits('[');
    EscapeDigitsIntended('[');
    assert ShorthandClass('d')[1..4] == "0-9";
    FilterEscaped('d', '[');
  }

  /** Scanning the interior of each built-in class gives what `FilterEscape`
      states: `\d` the digits, `\D` the rest, `\s` space and tab, `\i` the
      letters, `_` and `:`; `^` negates member by member, so `\S` and `\I`
      accept every byte. */
  lemma FilterEscapeClasses(tst: char)
    ensures Filter("0-9", tst) == Some('0' <= tst <= '9')
    ensures Filter("^0-9", tst) == Some(!('0' <= tst <= '9'))
    ensures Filter(" \t", tst) == Some(tst == ' ' || tst == '\t')
    ensures Filter("^ \t", tst) == Some(true)
    ensures Filter("a-zA-Z_:", tst) == Some('a' <= tst <= 'z' || 'A' <= tst <= 'Z' || tst == '_' || tst == ':')
    ensures Filter("^a-zA-Z_:", tst) == Some(true)
    ensures forall c :: ClassEscape(c) ==> Filter(ShorthandClass(c)[1..|ShorthandClass(c)| - 1], tst) == Some(FilterEscape(c, tst))
  {
    EscapeDigitsIntended(tst);
    EscapeBlanksIntended(tst);
    EscapeNamesIntended(tst);
    forall c | ClassEscape(c)
      ensures Filter(ShorthandClass(c)[1..|ShorthandClass(c)| - 1], tst) == Some(FilterEscape(c, tst))
    {
      ShorthandInterior(c);
    }
  }

  /** The interior of each built-in class, between its brackets. */
  lemma ShorthandInterior(c: char)
    requires ClassEscape(c)
    ensures ShorthandClass(c)[1..|ShorthandClass(c)| - 1]
         == if c == 'd' then "0-9" else if c == 'D' then "^0-9"
            else if c == 's' then " \t" else if c == 'S' then "^ \t"
            else if c == 'i' then "a-zA-Z_:" else "^a-zA-Z_:"
  {
  }

  lemma EscapeDigitsIntended(tst: char)
    ensures Filter("0-9", tst) == Some('0' <= tst <= '9')
    ensures Filter("^0-9", tst) == Some(!('0' <= tst <= '9'))
  {
    var digits := [Range('0', '9')];
    assert SpellAll(digits) == "0-9";
    assert SpellAll(digits) + [] == "0-9";
    FilterPlainList(digits, [], tst);
    assert AnyCovers(digits, tst) == ('0' <= tst <= '9') by {
      if '0' <= tst <= '9' { assert Covers(digits[0], tst); }
    }
    assert "^" + Spell(Range('0', '9')) == "^0-9";
    FilterNegatedSingle(Range('0', '9'), tst);
  }

  lemma EscapeBlanksIntended(tst: char)
    ensures Filter(" \t", tst) == Some(tst == ' ' || tst == '\t')
    ensures Filter("^ \t", tst) == Some(true)
  {
    var blanks := [Single(' '), Single('\t')];
    assert SpellAll(blanks[1..]) == "\t";
    assert SpellAll(blanks) + [] == " \t";
    FilterPlainList(blanks, [], tst);
    assert AnyCovers(blanks, tst) == (tst == ' ' || tst == '\t') by {
      if tst == ' ' { assert Covers(blanks[0], tst); }
      if tst == '\t' { assert Covers(blanks[1], tst); }
    }
    assert ['^', ' ', '\t'] == "^ \t";
    FilterNegatedPair(' ', '\t', tst);
  }

  lemma EscapeNamesIntended(tst: char)
    ensures Filter("a-zA-Z_:", tst) == Some('a' <= tst <= 'z' || 'A' <= tst <= 'Z' || tst == '_' || tst == ':')
    ensures Filter("^a-zA-Z_:", tst) == Some(true)
  {
    var letters := [Range('a', 'z'), Range('A', 'Z')];
    assert SpellAll(letters[1..]) == "A-Z";
    assert SpellAll(letters) == "a-zA-Z";
    var marks := [Single('_'), Single(':')];
    assert SpellAll(marks[1..]) == ":";
    assert SpellAll(marks) == "_:";
    var name := letters + marks;
    SpellAllAppend(letters, marks);
    assert SpellAll(name) + [] == "a-zA-Z_:";
    FilterPlainList(name, [], tst);
    assert AnyCovers(name, tst) == ('a' <= tst <= 'z' || 'A' <= tst <= 'Z' || tst == '_' || tst == ':') by {
      if 'a' <= tst <= 'z' { assert Covers(name[0], tst); }
      if 'A' <= tst <= 'Z' { assert Covers(name[1], tst); }
      if tst == '_' { assert Covers(name[2], tst); }
      if tst == ':' { assert Covers(name[3], tst); }
    }
    assert SpellAll([]) + "^" + SpellAll(name) + [] == "^a-zA-Z_:";
    FilterFlipped([], name, [], tst);
    if 'a' <= tst <= 'z' { assert !Covers(name[1], tst); } else { assert !Covers(name[0], tst); }
  }


  // ---------------------------------------------------------------------
  // The name-character classes `\c` and `\C`
  // ---------------------------------------------------------------------

  /** The bytes `\c` is meant to stand for, the name characters of XML
      within ASCII: `-`, `.`, `_`, `:`, the letters and the digits. */
  predicate NameChar(tst: char) {
    tst == '-' || tst == '.' || tst == '_' || tst == ':'
    || 'A' <= tst <= 'Z' || 'a' <= tst <= 'z' || '0' <= tst <= '9'
  }

  /** The members of `\c` after its leading `-.`. */
  function NameMembers(): (ms: seq<Member>)
    ensures PlainMembers(ms) && SpellAll(ms) == "_:A-Za-z0-9"
  {
    var ms := [Single('_'), Single(':'), Range('A', 'Z'), Range('a', 'z'), Range('0', '9')];
    assert SpellAll(ms[4..]) == "0-9";
    assert SpellAll(ms[3..]) == "a-z" + SpellAll(ms[4..]);
    assert SpellAll(ms[2..]) == "A-Z" + SpellAll(ms[3..]);
    assert SpellAll(ms[1..]) == ":" + SpellAll(ms[2..]);
    ms
  }

  /** Those members cover the name characters other than `-` and `.`. */
  lemma NameMembersCover(tst: char)
    ensures AnyCovers(NameMembers(), tst) == (NameChar(tst) && tst != '-' && tst != '.')
  {
    var ms := NameMembers();
    if tst == '_' { assert Covers(ms[0], tst); }
    if tst == ':' { assert Covers(ms[1], tst); }
    if 'A' <= tst <= 'Z' { assert Covers(ms[2], tst); }
    if 'a' <= tst <= 'z' { assert Covers(ms[3], tst); }
    if '0' <= tst <= '9' { assert Covers(ms[4], tst); }
  }

  /** Those members, negated one by one, accept every byte. */
  lemma NameMembersMiss(tst: char)
    ensures AnyMisses(NameMembers(), tst)
  {
    var ms := NameMembers();
    if tst == '_' { assert !Covers(ms[1], tst); } else { assert !Covers(ms[0], tst); }
  }

  /** `\c` and `\C` as written. Their interiors open with a range dash that
      has no byte before it, so the source compares a byte at or below `.`
      with an uninitialised variable, and neither `-` nor `.` is a member
      of its own. For `\c` that comparison alone decides such a byte, which
      no later member covers; above `.` the dash tests nothing and `\c`
      accepts the name characters. `\C` accepts every byte whatever the
      comparison gives: a byte the dash does not credit is credited by the
      negated `_` or `:` that follows. */
  lemma NameClassesAsWritten(tst: char)
    ensures ShorthandClass('c') == "[" + "-." + SpellAll(NameMembers()) + "]"
    ensures ShorthandClass('C') == "[" + "^-." + SpellAll(NameMembers()) + "]"
    ensures Filter("-." + SpellAll(NameMembers()), tst) == if tst <= '.' then None else Some(NameChar(tst))
    ensures Filter("^-." + SpellAll(NameMembers()), tst) == Some(true)
  {
    NameWordAsWritten(tst);
    NameNonWordAsWritten(tst);
  }

  lemma NameWordAsWritten(tst: char)
    ensures Filter("-." + SpellAll(NameMembers()), tst) == if tst <= '.' then None else Some(NameChar(tst))
  {
    var ms := NameMembers();
    var cls := "-." + SpellAll(ms);
    ScanLeadingDash(cls, tst, 0, Start);
    NameMembersCover(tst);
    if '.' < tst {
      NameClassPlain("-.", ms, tst, Start);
    } else {
      NameClassPlain("-.", ms, tst, Credit(Start.(low := Some(true)), true));
      NameClassPlain("-.", ms, tst, Credit(Start.(low := Some(false)), false));
    }
  }

  lemma NameNonWordAsWritten(tst: char)
    ensures Filter("^-." + SpellAll(NameMembers()), tst) == Some(true)
  {
    var ms := NameMembers();
    var cls := "^-." + SpellAll(ms);
    var st := Start.(negated := true);
    ScanCaret(cls, tst, 0, Start);
    ScanLeadingDash(cls, tst, 1, st);
    NameMembersMiss(tst);
    if '.' < tst {
      NameClassPlain("^-.", ms, tst, Credit(st, true));
    } else {
      NameClassPlain("^-.", ms, tst, Credit(st.(low := Some(true)), false));
      NameClassPlain("^-.", ms, tst, Credit(st.(low := Some(false)), true));
    }
  }

  /** The interiors of `\c` and `\C`, between their brackets. */
  lemma NameClassInterior(c: char)
    requires c == 'c' || c == 'C'
    ensures ShorthandClass(c)[1..|ShorthandClass(c)| - 1] == (if c == 'c' then "-." else "^-.") + SpellAll(NameMembers())
  {
    if c == 'c' { WordInterior(); } else { NonWordInterior(); }
  }

  lemma WordInterior()
    ensures ShorthandClass('c')[1..14] == "-." + SpellAll(NameMembers())
  {
    assert ShorthandClass('c')[1..14] == "-._:A-Za-z0-9" by {
      assert ShorthandClass('c') == "[-._:A-Za-z0-9]";
    }
    assert "-." + SpellAll(NameMembers()) == "-._:A-Za-z0-9" by {
      assert SpellAll(NameMembers()) == "_:A-Za-z0-9";
    }
  }

  lemma NonWordInterior()
    ensures ShorthandClass('C')[1..15] == "^-." + SpellAll(NameMembers())
  {
    assert ShorthandClass('C')[1..15] == "^-._:A-Za-z0-9" by {
      assert ShorthandClass('C') == "[^-._:A-Za-z0-9]";
    }
    assert "^-." + SpellAll(NameMembers()) == "^-._:A-Za-z0-9" by {
      assert SpellAll(NameMembers()) == "_:A-Za-z0-9";
    }
  }

  /** `\c` and `\C` as evidently intended, read with the corrected scan:
      the leading dash is a member, `\c` accepts exactly the name
      characters and `\C` (negated member by member) every byte. */
  lemma NameClassesIntended(tst: char)
    ensures FilterIntended("-." + SpellAll(NameMembers()), tst) == Some(NameChar(tst))
    ensures FilterIntended("^-." + SpellAll(NameMembers()), tst) == Some(true)
  {
    NameWordIntended(tst);
    NameNonWordIntended(tst);
  }

  /** The members of `\c` after its leading dash. */
  lemma DotNameMembers(tst: char)
    ensures PlainMembers([Single('.')] + NameMembers())
    ensures SpellAll([Single('.')] + NameMembers()) == "." + SpellAll(NameMembers())
    ensures AnyCovers([Single('.')] + NameMembers(), tst) == (NameChar(tst) && tst != '-')
    ensures AnyMisses([Single('.')] + NameMembers(), tst)
  {
    var ms := [Single('.')] + NameMembers();
    assert ms[1..] == NameMembers();
    NameMembersCover(tst);
    NameMembersMiss(tst);
    if tst == '.' { assert Covers(ms[0], tst); }
    if AnyCovers(NameMembers(), tst) {
      var k :| 0 <= k < |NameMembers()| && Covers(NameMembers()[k], tst);
      assert Covers(ms[k + 1], tst);
    }
    if AnyCovers(ms, tst) && tst != '.' {
      var k :| 0 <= k < |ms| && Covers(ms[k], tst);
      assert Covers(NameMembers()[k - 1], tst);
    }
    var k :| 0 <= k < |NameMembers()| && !Covers(NameMembers()[k], tst);
    assert !Covers(ms[k + 1], tst);
  }

  lemma NameWordIntended(tst: char)
    ensures FilterIntended("-." + SpellAll(NameMembers()), tst) == Some(NameChar(tst))
  {
    var ms := [Single('.')] + NameMembers();
    DotNameMembers(tst);
    var cls := "-" + SpellAll(ms);
    assert cls == "-." + SpellAll(NameMembers());
    ScanLeadingDashIntended(cls, tst, 0, Start);
    NameClassPlain("-", ms, tst, Credit(Start.(prev := Some('-')), tst == '-'), true);
  }

  lemma NameNonWordIntended(tst: char)
    ensures FilterIntended("^-." + SpellAll(NameMembers()), tst) == Some(true)
  {
    var ms := [Single('.')] + NameMembers();
    DotNameMembers(tst);
    var cls := "^-" + SpellAll(ms);
    assert cls == "^-." + SpellAll(NameMembers());
    var st := Start.(negated := true);
    ScanCaret(cls, tst, 0, Start, true);
    ScanLeadingDashIntended(cls, tst, 1, st);
    NameClassPlain("^-", ms, tst, Credit(st.(prev := Some('-')), tst != '-'), true);
  }

  /** A range dash with no byte before it, as written: above the high end
      the range test fails whatever the low end; otherwise the scan goes on
      under both outcomes of the comparison with the low end. */
  lemma ScanLeadingDash(cls: seq<char>, tst: char, i: nat, st: FilterState)
    requires i + 2 < |cls| && cls[i] == '-' && cls[i + 1] != '[' && st.prev.None? && st.low.None?
    ensures cls[i + 1] < tst ==> Scan(cls, tst, i, st) == Scan(cls, tst, i + 2, Credit(st, st.negated))
    ensures tst <= cls[i + 1] ==>
      var yes := Scan(cls, tst, i + 2, Credit(st.(low := Some(true)), !st.negated));
      var no := Scan(cls, tst, i + 2, Credit(st.(low := Some(false)), st.negated));
      Scan(cls, tst, i, st) == if yes.Some? && no.Some? && Verdict(yes.value) == Verdict(no.value) then yes else None
  {
  }

  /** A dash with no byte before it, as intended: a member of its own. */
  lemma ScanLeadingDashIntended(cls: seq<char>, tst: char, i: nat, st: FilterState)
    requires i + 2 < |cls| && cls[i] == '-' && cls[i + 1] != '[' && cls[i + 1] != '-' && st.prev.None?
    ensures Scan(cls, tst, i, st, true)
         == Scan(cls, tst, i + 1, Credit(st.(prev := Some('-')), ('-' == tst) != st.negated), true)
  {
  }

  /** Plain members that run to the end of a class after a short head. */
  lemma NameClassPlain(head: seq<char>, ms: seq<Member>, tst: char, st: FilterState, intended: bool := false)
    requires PlainMembers(ms) && st.mode == 0 && !st.strip
    ensures Scan(head + SpellAll(ms), tst, |head|, st, intended)
         == Some(Absorb(st, ms, tst))
    ensures !Absorb(st, ms, tst).strip
    ensures Absorb(st, ms, tst).found == (st.found || (if st.negated then AnyMisses(ms, tst) else AnyCovers(ms, tst)))
  {
    var cls := head + SpellAll(ms);
    SpelledAtAppend(head, ms, []);
    assert head + SpellAll(ms) + [] == cls;
    ScanSpelled(cls, tst, |head|, ms, st, intended);
    ScanDone(cls, tst, Absorb(st, ms, tst), intended);
    AbsorbLevelZero(st, ms, tst);
  }
}
