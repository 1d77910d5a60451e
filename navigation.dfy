/** The navigation of script.js: which course is open, which difficulty
    level and which section (theory or exercises) are shown, the click
    handlers that change them, and the view the page renders from them. */
module Navigation {
  import opened Wrappers
  import opened AnswerMatcher
  import opened Grader

  /** A course card of the content repository. External courses are plain
      links to `url`. */
  datatype Course = Course(id: string, name: string, description: string, icon: string,
                           isExternal: bool, url: string)

  /** The three level tabs, in the order they are drawn. */
  datatype Level = Basico | Intermedio | Avanzado

  datatype Section = Theory | Exercises

  /** The content repository, read only: the course list, the theory text
      per course and level, and the exercises per course and level. */
  datatype Content = Content(courses: seq<Course>,
                             theory: map<string, map<Level, string>>,
                             exercises: map<string, map<Level, seq<Exercise>>>)

  /** The navigation state: the selected course (none on the course list),
      the selected level, and the section attribute of the page container,
      which may be unset. */
  datatype Nav = Nav(course: Option<Course>, level: Level, section: Option<Section>)

  /** At load time: no course, level "basico", no section attribute. */
  const Initial: Nav := Nav(None, Basico, None)

  /** The user actions that have a handler. */
  datatype Action =
    | ClickCourseCard(index: nat)   // a card of the course list
    | ClickBack                     // the arrow in front of the course title
    | ClickLevelTab(level: Level)
    | ClickSectionTab(section: Section)
    | ClickHome                     // the home button of the page header

  /** A course that has a card with a click handler: listed and internal. */
  predicate Selectable(content: Content, c: Course) {
    c in content.courses && !c.isExternal
  }

  /** The state invariant: a selected course is a selectable one. */
  predicate ValidNav(content: Content, s: Nav) {
    s.course.Some? ==> Selectable(content, s.course.value)
  }

  /** The control an action clicks is on the page and has a handler: the
      cards of internal courses on the course list; the back arrow and the
      level and section tabs on a course detail; the home button always. */
  function OnPage(content: Content, s: Nav, a: Action): (b: bool)
    ensures a.ClickHome? ==> b
    ensures b && !a.ClickHome? ==> (s.course.None? <==> a.ClickCourseCard?)
    ensures b && a.ClickCourseCard? ==>
      a.index < |content.courses| && Selectable(content, content.courses[a.index])
  {
    match a
    case ClickCourseCard(i) => s.course.None? && i < |content.courses| && !content.courses[i].isExternal
    case ClickBack => s.course.Some?
    case ClickLevelTab(_) => s.course.Some?
    case ClickSectionTab(_) => s.course.Some?
    case ClickHome => true
  }

  /** What the handler of a control does to the state: a course is selected
      after a card or a tab and cleared by the back arrow and the home
      button; only a card and a level tab set the level; only a section tab
      and the home button touch the section attribute. */
  function Handle(content: Content, s: Nav, a: Action): (r: Nav)
    requires OnPage(content, s, a)
    ensures ValidNav(content, s) ==> ValidNav(content, r)
    ensures r.course.Some? <==> a.ClickCourseCard? || a.ClickLevelTab? || a.ClickSectionTab?
    ensures a.ClickCourseCard? || a.ClickLevelTab? || r.level == s.level
    ensures a.ClickSectionTab? || a.ClickHome? || r.section == s.section
  {
    match a
    case ClickCourseCard(i) => s.(course := Some(content.courses[i]), level := Basico)
    case ClickBack => s.(course := None)
    case ClickLevelTab(l) => s.(level := l)
    case ClickSectionTab(x) => s.(section := Some(x))
    case ClickHome => s.(course := None, section := None)
  }

  /** One click: a control that is not on the page (or an external course
      card, which is a plain link) changes nothing. */
  function Step(content: Content, s: Nav, a: Action): (r: Nav)
    ensures ValidNav(content, s) ==> ValidNav(content, r)
    ensures !OnPage(content, s, a) ==> r == s
  {
    if OnPage(content, s, a) then Handle(content, s, a) else s
  }

  /** A sequence of handler runs, one after the other. Any sequence of
      clicks keeps the invariant: only a selectable course is ever
      selected. */
  function Run(content: Content, s: Nav, actions: seq<Action>): (r: Nav)
    ensures ValidNav(content, s) ==> ValidNav(content, r)
    decreases |actions|
  {
    if actions == [] then s else Run(content, Step(content, s, actions[0]), actions[1..])
  }

  // ---------------------------------------------------------------------
  // Content resolution and the view
  // ---------------------------------------------------------------------

  /** The theory text of a course and level; a missing entry and an empty
      text (falsy in JavaScript) both count as absent. */
  function TheoryFor(content: Content, id: string, level: Level): (r: Option<string>)
    ensures r.Some? <==> id in content.theory && level in content.theory[id]
                         && content.theory[id][level] != ""
    ensures r.Some? ==> r.value == content.theory[id][level]
  {
    var byLevel := if id in content.theory then content.theory[id] else map[];
    if level in byLevel && byLevel[level] != "" then Some(byLevel[level]) else None
  }

  /** The exercises of a course and level; a missing entry is an empty list. */
  function ExercisesFor(content: Content, id: string, level: Level): (r: seq<Exercise>)
    ensures id in content.exercises && level in content.exercises[id] ==> r == content.exercises[id][level]
    ensures !(id in content.exercises && level in content.exercises[id]) ==> r == []
  {
    var byLevel := if id in content.exercises then content.exercises[id] else map[];
    if level in byLevel then byLevel[level] else []
  }

  /** One card of the course list. */
  datatype Card = InternalCard(course: Course) | ExternalLink(url: string, course: Course)

  /** What the content area of the course detail shows. */
  datatype Body =
    | TheoryText(text: string)
    | TheoryUnavailable             // "content not available" placeholder
    | ExerciseForm(items: seq<Exercise>)   // the questions and the verify button
    | NoExercises                   // "no exercises for this level yet" placeholder

  /** The rendered page, without its markup. */
  datatype View =
    | CourseList(cards: seq<Card>)
    | CourseDetail(course: Course, activeLevel: Level, activeSection: Section, body: Body)

  /** The section whose tab is highlighted and whose content is shown: an
      unset section attribute reads as theory. */
  function ShownSection(s: Nav): (x: Section)
    ensures x == Exercises <==> s.section == Some(Exercises)
  {
    s.section.GetOr(Theory)
  }

  /** The course cards, in the order of the course list. */
  function Cards(courses: seq<Course>): (cards: seq<Card>)
    ensures |cards| == |courses|
    ensures forall i :: 0 <= i < |courses| ==> cards[i].course == courses[i]
    ensures forall i :: 0 <= i < |courses| ==> (cards[i].ExternalLink? <==> courses[i].isExternal)
    ensures forall i :: 0 <= i < |courses| && cards[i].ExternalLink? ==> cards[i].url == courses[i].url
  {
    seq(|courses|, i requires 0 <= i < |courses| =>
      if courses[i].isExternal then ExternalLink(courses[i].url, courses[i]) else InternalCard(courses[i]))
  }

  /** The content area for a course, level and section. */
  function DetailBody(content: Content, c: Course, level: Level, x: Section): (b: Body)
    ensures x == Theory ==> (b.TheoryText? <==> TheoryFor(content, c.id, level).Some?)
    ensures x == Theory ==> (b.TheoryText? ==> b.text == TheoryFor(content, c.id, level).value)
    ensures x == Theory ==> (b.TheoryText? || b.TheoryUnavailable?)
    ensures x == Exercises ==> (b.NoExercises? <==> ExercisesFor(content, c.id, level) == [])
    ensures x == Exercises ==> (b.ExerciseForm? ==> b.items == ExercisesFor(content, c.id, level))
    ensures x == Exercises ==> (b.ExerciseForm? || b.NoExercises?)
  {
    match x
    case Theory =>
      (match TheoryFor(content, c.id, level)
       case Some(t) => TheoryText(t)
       case None => TheoryUnavailable)
    case Exercises =>
      var items := ExercisesFor(content, c.id, level);
      if |items| == 0 then NoExercises else ExerciseForm(items)
  }

  /** `renderApp`: the course list when no course is selected, otherwise
      the course detail at the selected level and shown section. */
  function Project(content: Content, s: Nav): (v: View)
    ensures s.course.None? <==> v.CourseList?
    ensures v.CourseList? ==> v.cards == Cards(content.courses)
    ensures v.CourseDetail? ==> v.course == s.course.value && v.activeLevel == s.level
                                && v.activeSection == ShownSection(s)
                                && v.body == DetailBody(content, s.course.value, s.level, ShownSection(s))
  {
    match s.course
    case None => CourseList(Cards(content.courses))
    case Some(c) => CourseDetail(c, s.level, ShownSection(s), DetailBody(content, c, s.level, ShownSection(s)))
  }

  /** The verify button is on the page, and has its handler, only in an
      exercise form: exactly in the exercises section of a course whose
      list for the selected level is not empty, and the form holds that
      list. */
  function HasVerifyButton(content: Content, s: Nav): (b: bool)
    ensures b <==> s.course.Some? && s.section == Some(Exercises)
                   && ExercisesFor(content, s.course.value.id, s.level) != []
    ensures b ==> Project(content, s).body.items == ExercisesFor(content, s.course.value.id, s.level)
  {
    var v := Project(content, s);
    v.CourseDetail? && v.body.ExerciseForm?
  }

  // ---------------------------------------------------------------------
  // Properties of the transitions and the view
  // ---------------------------------------------------------------------

  /** Running two sequences of clicks is running their concatenation. */
  lemma {:induction false} RunAppend(content: Content, s: Nav, xs: seq<Action>, ys: seq<Action>)
    ensures Run(content, s, xs + ys) == Run(content, Run(content, s, xs), ys)
    decreases |xs|
  {
    if xs == [] {
      assert xs + ys == ys;
    } else {
      assert (xs + ys)[1..] == xs[1..] + ys;
      RunAppend(content, Step(content, s, xs[0]), xs[1..], ys);
    }
  }

  /** One click of a sequence. */
  lemma RunOne(content: Content, s: Nav, a: Action)
    ensures Run(content, s, [a]) == Step(content, s, a)
  {
    assert [a][1..] == [];
  }

  /** Two clicks in a row. */
  lemma RunPair(content: Content, s: Nav, a: Action, b: Action)
    ensures Run(content, s, [a, b]) == Step(content, Step(content, s, a), b)
  {
    assert [a, b] == [a] + [b];
    RunAppend(content, s, [a], [b]);
    RunOne(content, s, a);
    RunOne(content, Step(content, s, a), b);
  }

  /** A click on a control that is not on the page changes nothing; in
      particular the card of an external course, and every course control
      while a course is open. */
  lemma OffPageInert(content: Content, s: Nav, a: Action)
    ensures a.ClickCourseCard? && a.index < |content.courses| && content.courses[a.index].isExternal
            ==> Step(content, s, a) == s
    ensures a.ClickCourseCard? && s.course.Some? ==> Step(content, s, a) == s
    ensures !a.ClickHome? && s.course.None? && Step(content, s, a) != s ==> a.ClickCourseCard?
  {
  }

  /** Opening an internal course from the course list selects it at level
      "basico" and leaves the section attribute as it was. */
  lemma OpenCourse(content: Content, s: Nav, i: nat)
    requires s.course.None? && i < |content.courses| && !content.courses[i].isExternal
    ensures var t := Step(content, s, ClickCourseCard(i));
      t.course == Some(content.courses[i]) && t.level == Basico && t.section == s.section
    ensures var v := Project(content, Step(content, s, ClickCourseCard(i)));
      v.CourseDetail? && v.activeLevel == Basico && v.activeSection == ShownSection(s)
  {
  }

  /** A level tab selects its level and highlights it, in the same section. */
  lemma PickLevel(content: Content, s: Nav, l: Level)
    requires s.course.Some?
    ensures var v := Project(content, Step(content, s, ClickLevelTab(l)));
      v.CourseDetail? && v.course == s.course.value && v.activeLevel == l
      && v.activeSection == ShownSection(s)
  {
  }

  /** A section tab shows its section, at the same level. */
  lemma PickSection(content: Content, s: Nav, x: Section)
    requires s.course.Some?
    ensures var v := Project(content, Step(content, s, ClickSectionTab(x)));
      v.CourseDetail? && v.course == s.course.value && v.activeLevel == s.level
      && v.activeSection == x
  {
  }

  /** The back arrow clears the course and nothing else, so the section
      chosen before survives: the next course opened shows the same
      section. */
  lemma BackKeepsSection(content: Content, s: Nav, i: nat)
    requires s.course.Some?
    requires i < |content.courses| && !content.courses[i].isExternal
    ensures Step(content, s, ClickBack) == s.(course := None)
    ensures Project(content, Step(content, s, ClickBack)) == CourseList(Cards(content.courses))
    ensures var t := Run(content, s, [ClickBack, ClickCourseCard(i)]);
      t.course == Some(content.courses[i]) && ShownSection(t) == ShownSection(s)
  {
    RunPair(content, s, ClickBack, ClickCourseCard(i));
  }

  /** The home button clears the course and the section but keeps the
      level; the next course opened starts on its theory at "basico". */
  lemma HomeThenOpen(content: Content, s: Nav, i: nat)
    requires i < |content.courses| && !content.courses[i].isExternal
    ensures var h := Step(content, s, ClickHome);
      h.course.None? && h.section.None? && h.level == s.level
    ensures Project(content, Step(content, s, ClickHome)) == CourseList(Cards(content.courses))
    ensures var c := content.courses[i];
      Project(content, Run(content, s, [ClickHome, ClickCourseCard(i)]))
        == CourseDetail(c, Basico, Theory, DetailBody(content, c, Basico, Theory))
  {
    RunPair(content, s, ClickHome, ClickCourseCard(i));
  }

  /** Switching course always restarts at level "basico": open a course,
      pick "avanzado", go back, open another course. */
  lemma SwitchCourseResetsLevel(content: Content, a: nat, b: nat)
    requires a < |content.courses| && !content.courses[a].isExternal
    requires b < |content.courses| && !content.courses[b].isExternal
    ensures Run(content, Initial, [ClickCourseCard(a), ClickLevelTab(Avanzado), ClickBack, ClickCourseCard(b)])
         == Nav(Some(content.courses[b]), Basico, None)
  {
    var first := [ClickCourseCard(a), ClickLevelTab(Avanzado)];
    var second := [ClickBack, ClickCourseCard(b)];
    assert first + second == [ClickCourseCard(a), ClickLevelTab(Avanzado), ClickBack, ClickCourseCard(b)];
    RunAppend(content, Initial, first, second);
    RunPair(content, Initial, ClickCourseCard(a), ClickLevelTab(Avanzado));
    RunPair(content, Run(content, Initial, first), ClickBack, ClickCourseCard(b));
  }

  /** The page opens on the course list. */
  lemma InitialView(content: Content)
    ensures Project(content, Initial) == CourseList(Cards(content.courses))
  {
  }

  /** Theory is shown when the section attribute is unset or "theory";
      absent or empty theory text shows the placeholder. */
  lemma TheoryShown(content: Content, s: Nav)
    requires s.course.Some? && (s.section.None? || s.section == Some(Theory))
    ensures var v := Project(content, s);
      v.CourseDetail? && v.activeSection == Theory
      && (TheoryFor(content, s.course.value.id, s.level).None? <==> v.body == TheoryUnavailable)
  {
  }

  // ---------------------------------------------------------------------
  // The page state, updated in place by the click handlers
  // ---------------------------------------------------------------------

  /** The module-level state of the page: `selectedCourse`, `selectedLevel`
      and the container's `section` attribute, over a fixed content
      repository. */
  class App {
    const content: Content
    var course: Option<Course>
    var level: Level
    var section: Option<Section>

    /** The program invariant: a selected course is a listed internal
        course. The constructor establishes it and every handler keeps it,
        as `Step` and `Run` state for the transitions themselves. */
    ghost predicate Valid()
      reads this
    {
      ValidNav(content, Current())
    }

    function Current(): Nav
      reads this
    {
      Nav(course, level, section)
    }

    /** The page after loading. */
    constructor (content: Content)
      ensures this.content == content
      ensures Valid() && Current() == Initial
    {
      this.content := content;
      course := None;
      level := Basico;
      section := None;
    }

    /** The click handler of an internal course card, on the course list. */
    method ClickCourseCard(i: nat)
      requires Valid() && OnPage(content, Current(), Action.ClickCourseCard(i))
      modifies this
      ensures Valid()
      ensures Current() == Step(content, old(Current()), Action.ClickCourseCard(i))
    {
      course := Some(content.courses[i]);
      level := Basico;
      assert content.courses[i] in content.courses;
    }

    /** The click handler of the back arrow of a course detail. */
    method ClickBack()
      requires Valid() && OnPage(content, Current(), Action.ClickBack)
      modifies this
      ensures Valid()
      ensures Current() == Step(content, old(Current()), Action.ClickBack)
    {
      course := None;
    }

    /** The click handler of a level tab of a course detail. */
    method ClickLevelTab(l: Level)
      requires Valid() && OnPage(content, Current(), Action.ClickLevelTab(l))
      modifies this
      ensures Valid()
      ensures Current() == Step(content, old(Current()), Action.ClickLevelTab(l))
    {
      level := l;
    }

    /** The click handler of a section tab of a course detail. */
    method ClickSectionTab(x: Section)
      requires Valid() && OnPage(content, Current(), Action.ClickSectionTab(x))
      modifies this
      ensures Valid()
      ensures Current() == Step(content, old(Current()), Action.ClickSectionTab(x))
    {
      section := Some(x);
    }

    /** The click handler of the home button of the page header. */
    method ClickHome()
      requires Valid()
      modifies this
      ensures Valid()
      ensures Current() == Step(content, old(Current()), Action.ClickHome)
    {
      course := None;
      section := None;
    }

    /** What the page shows now: the course list exactly when no course is
        selected, otherwise the selected course, highlighted at the selected
        level and in the section the attribute names (theory when unset). */
    function CurrentView(): (v: View)
      reads this
      ensures v.CourseList? <==> course.None?
      ensures v.CourseList? ==> v.cards == Cards(content.courses)
      ensures v.CourseDetail? ==> v.course == course.value && v.activeLevel == level
                                  && v.activeSection == section.GetOr(Theory)
                                  && v.body == DetailBody(content, v.course, level, v.activeSection)
      ensures Valid() && v.CourseDetail? ==> Selectable(content, v.course)
    {
      Project(content, Current())
    }

    /** `verifyAnswers`: nothing without a selected course; otherwise the
      exercises of the selected course and level graded against the typed
      answers. The course must have an exercise entry (without one the
      lookup throws). */
    method VerifyAnswers(inputs: map<nat, string>, parse: Parser) returns (r: Option<Score>)
      requires course.Some? ==> course.value.id in content.exercises
      ensures r.Some? <==> course.Some?
      ensures r.Some? ==> var items := ExercisesFor(content, course.value.id, level);
        && r.value.total == |items| == |r.value.items|
        && (forall i :: 0 <= i < |items| ==> r.value.items[i] == ItemFeedback(items[i], Input(inputs, i), parse))
        && r.value.correct == CountCorrect(r.value.items)
        && (r.value.perfect <==> r.value.correct == r.value.total)
    {
      match course
      case None =>
        r := None;
      case Some(c) =>
        var byLevel := content.exercises[c.id];
        var items := if level in byLevel then byLevel[level] else [];
        var score := Grade(items, inputs, parse);
        r := Some(score);
    }
  }
}
