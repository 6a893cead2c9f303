/**
 The admin view (`admin.js`): the panel switcher, the group list with one
 link per section, and the students table with one row per student and
 one cell per question. Each handler's container is cleared before it is
 filled, so a render takes only the payload: its result cannot depend on
 what the container held before.
 */
module Admin {
  import opened Js
  import opened Dom
  import opened Rpc

  /** The panels `show` manages, in the order it visits them. */
  const Ids: seq<string> := ["login", "groups", "table", "single"]

  // ---------------------------------------------------------------------
  // Panel switcher
  // ---------------------------------------------------------------------

  /** The loop of `show` over `ids`: each panel is set to `block` when its
      id equals `which` and to `none` otherwise; other elements keep their
      display. `which` is `None` for `show(null)`. */
  function ShowIn(ids: seq<string>, page: Page, which: Option<string>): (r: Page)
    ensures r.Keys == page.Keys + (set id | id in ids)
    ensures forall id :: id in ids ==> (Visible(r, id) <==> which == Some(id))
    ensures forall id :: id in page && id !in ids ==> r[id] == page[id]
    decreases |ids|
  {
    if ids == [] then page
    else ShowIn(ids[1..], page[ids[0] := if which == Some(ids[0]) then Block else Hidden], which)
  }

  function Show(page: Page, which: Option<string>): (r: Page)
    ensures forall id :: id in Ids ==> (Visible(r, id) <==> which == Some(id))
  {
    ShowIn(Ids, page, which)
  }

  /** After `show(w)` the visible panels are exactly `{w}` when `w` is a
      managed id, and none otherwise (an unknown id or `null`). */
  lemma ShowVisibleSet(page: Page, which: Option<string>)
    ensures VisibleAmong(Show(page, which), Ids) ==
      if which.Some? && which.value in Ids then {which.value} else {}
    ensures |VisibleAmong(Show(page, which), Ids)| <= 1
  {
    ShowInVisibleSet(Ids, page, which);
  }

  lemma ShowInVisibleSet(ids: seq<string>, page: Page, which: Option<string>)
    ensures VisibleAmong(ShowIn(ids, page, which), ids) ==
      if which.Some? && which.value in ids then {which.value} else {}
  {
    var v := VisibleAmong(ShowIn(ids, page, which), ids);
    if which.Some? && which.value in ids {
      assert which.value in v;
      assert v == {which.value};
    } else {
      assert v == {};
    }
  }

  /** The later call decides: `show(a); show(b)` leaves the page as `show(b)` does. */
  lemma ShowLastWins(page: Page, a: Option<string>, b: Option<string>)
    ensures Show(Show(page, a), b) == Show(page, b)
  {
    ShowInLastWins(Ids, page, a, b);
  }

  lemma ShowInLastWins(ids: seq<string>, page: Page, a: Option<string>, b: Option<string>)
    ensures ShowIn(ids, ShowIn(ids, page, a), b) == ShowIn(ids, page, b)
  {
    var mid := ShowIn(ids, page, a);
    var p1 := ShowIn(ids, mid, b);
    var p2 := ShowIn(ids, page, b);
    assert p1.Keys == p2.Keys;
    forall id | id in p1 ensures p1[id] == p2[id] {
      if id in ids {
        assert Visible(p1, id) == Visible(p2, id);
      } else {
        assert p1[id] == mid[id] == page[id];
      }
    }
    SamePage(p1, p2);
  }

  lemma SamePage(p1: Page, p2: Page)
    requires p1.Keys == p2.Keys
    requires forall id :: id in p1 ==> p1[id] == p2[id]
    ensures p1 == p2
  {
  }

  /** Calling `show` twice with the same id is the same as calling it once. */
  lemma ShowIdempotent(page: Page, which: Option<string>)
    ensures Show(Show(page, which), which) == Show(page, which)
  {
    ShowLastWins(page, which, which);
  }

  /** `init` calls `show(null)`: every managed panel is hidden. */
  function Init(page: Page): (r: Page)
    ensures VisibleAmong(r, Ids) == {}
    ensures forall id :: id in Ids ==> id in r
  {
    ShowVisibleSet(page, None);
    Show(page, None)
  }

  /** The `login` push shows the login panel only. */
  function OnLogin(page: Page): (r: Page)
    ensures VisibleAmong(r, Ids) == {"login"}
  {
    ShowVisibleSet(page, Some("login"));
    Show(page, Some("login"))
  }

  // ---------------------------------------------------------------------
  // Group list
  // ---------------------------------------------------------------------

  /** A section `[name, count]` of a group. */
  datatype Section = Section(name: string, count: Value)

  /** A group payload `[name, section, section, ...]`: its array length is
      `1 + |sections|`. */
  datatype Group = Group(name: string, sections: seq<Section>)

  /** A section link: its text and the (group, section) pair bound to it. */
  datatype Link = Link(text: string, group: string, section: string)

  /** One `div`: the bold label followed by the section links. */
  datatype GroupEntry = GroupEntry(heading: string, links: seq<Link>)

  function SectionLink(group: string, section: Section): (l: Link)
    ensures ClickLink(l).call == ShowSection(group, section.name) && ClickLink(l).onDone == NoCallback
  {
    Link(section.name + " (" + ToString(section.count) + ")", group, section.name)
  }

  /** A click on a link asks the server for that section's students; the
      call has no completion callback. */
  function ClickLink(l: Link): (r: Request)
    ensures r.call.ShowSection? && r.call.group == l.group && r.call.section == l.section
    ensures r.onDone == NoCallback
  {
    Request(ShowSection(l.group, l.section), NoCallback)
  }

  /** The `div` of one group: the label `name + ': '` and its links. */
  function RenderGroup(group: Group): (e: GroupEntry)
    ensures e.heading == group.name + ": "
    ensures |e.links| == |group.sections|
    ensures forall s :: 0 <= s < |group.sections| ==> e.links[s] == SectionLink(group.name, group.sections[s])
  {
    GroupEntry(group.name + ": ",
      seq(|group.sections|, s requires 0 <= s < |group.sections| => SectionLink(group.name, group.sections[s])))
  }

  /** The inner loop of `group_list`: one link per section, in order. */
  method BuildLinks(group: Group) returns (links: seq<Link>)
    ensures links == RenderGroup(group).links
  {
    links := [];
    for s := 0 to |group.sections|
      invariant links == RenderGroup(group).links[..s]
    {
      links := links + [SectionLink(group.name, group.sections[s])];
    }
  }

  /** The outer loop of `group_list`: one entry per group, in payload order. */
  method BuildGroups(list: seq<Group>) returns (entries: seq<GroupEntry>)
    ensures |entries| == |list|
    ensures forall g :: 0 <= g < |list| ==> entries[g] == RenderGroup(list[g])
  {
    entries := [];
    for g := 0 to |list|
      invariant |entries| == g
      invariant forall h :: 0 <= h < g ==> entries[h] == RenderGroup(list[h])
    {
      var links := BuildLinks(list[g]);
      entries := entries + [GroupEntry(list[g].name + ": ", links)];
    }
  }

  /** `Connection.group_list`: shows the groups panel and rebuilds the list,
      one entry per group in payload order, each with one link per section
      in section order, each link bound to its own group and section. */
  method GroupList(page: Page, list: seq<Group>) returns (shown: Page, entries: seq<GroupEntry>)
    ensures shown == Show(page, Some("groups"))
    ensures |entries| == |list|
    ensures forall g :: 0 <= g < |list| ==>
      entries[g].heading == list[g].name + ": " && |entries[g].links| == |list[g].sections|
    ensures forall g, s :: 0 <= g < |list| && 0 <= s < |entries[g].links| ==>
      entries[g].links[s].text == list[g].sections[s].name + " (" + ToString(list[g].sections[s].count) + ")"
    ensures forall g, s :: 0 <= g < |list| && 0 <= s < |entries[g].links| ==>
      ClickLink(entries[g].links[s]).call == ShowSection(list[g].name, list[g].sections[s].name)
  {
    shown := Show(page, Some("groups"));
    entries := BuildGroups(list);
  }

  // ---------------------------------------------------------------------
  // Students table
  // ---------------------------------------------------------------------

  /** A question `[key, label]`; only the label is shown. */
  datatype Question = Question(key: Value, title: string)

  /** A raw answer. `parse` tests `ans.length == 2`: a `[value, unit]`
      pair passes, so does a string of exactly two UTF-16 code units, and a
      number (whose `length` is `undefined`) never does. */
  datatype Answer = Pair(value: Value, unit: Value) | Text(s: string) | Number(repr: string)

  /** A per-question cell `[correct, answers]`; `answers` may be `null`. */
  datatype AnswerCell = AnswerCell(correct: Value, answers: Option<seq<Answer>>)

  /** A student `[name, status, cell, cell, ...]`: its array length is
      `2 + |cells|`. */
  datatype Student = Student(name: string, status: Value, cells: seq<AnswerCell>)

  datatype NameCell = NameCell(text: string, color: string)

  /** A `td`: its text lines (a `br` between two lines) as JavaScript
      strings, and its background. */
  datatype DataCell = DataCell(lines: seq<JsString>, background: string)

  datatype Row = Row(name: NameCell, cells: seq<DataCell>)

  /** The header row's cell texts and the student rows. */
  datatype Table = Table(header: seq<string>, rows: seq<Row>)

  /** The `parse` condition `ans.length == 2`, counted in code units. */
  predicate HasLengthTwo(ans: Answer) {
    ans.Pair? || (ans.Text? && |Utf16(ans.s)| == 2)
  }

  /** What `AddText` shows for the answer itself: `String(ans)` for a scalar. */
  function ScalarText(ans: Answer): JsString
    requires !ans.Pair?
  {
    match ans
    case Text(s) => Utf16(s)
    case Number(repr) => Utf16(repr)
  }

  /** `parse`: for an answer of length two, the string form of its first
      element with the first `.` written as `,`, a space, and its second
      element; any other answer as it is. For a string the two elements
      are its two code units. */
  function Parse(ans: Answer): (r: JsString)
    ensures !HasLengthTwo(ans) ==> r == ScalarText(ans)
    ensures ans.Text? && HasLengthTwo(ans) ==>
      |r| == 3 && r[1] == Space && r[2] == Utf16(ans.s)[1] && r != Utf16(ans.s)
    ensures ans.Pair? ==> var t := Utf16(ToString(ans.value));
      && |r| == |t| + 1 + |Utf16(ToString(ans.unit))|
      && (forall i :: 0 <= i < |t| ==> r[i] == if IsFirst(t, i, Dot) then Comma else t[i])
      && r[|t|] == Space
      && r[|t| + 1..] == Utf16(ToString(ans.unit))
  {
    match ans
    case Pair(v, unit) => ReplaceFirst(Utf16(ToString(v)), Dot, Comma) + [Space] + Utf16(ToString(unit))
    case Text(s) =>
      var u := Utf16(s);
      if |u| == 2 then ReplaceFirst(u[..1], Dot, Comma) + [Space] + u[1..] else u
    case Number(repr) => Utf16(repr)
  }

  /** JavaScript's `length` of a text is 2 exactly for two characters below
      U+10000, or for one character above it (a surrogate pair). */
  lemma JsLengthTwo(s: string)
    ensures |Utf16(s)| == 2 <==>
      (|s| == 2 && s[0] as int < 0x1_0000 && s[1] as int < 0x1_0000)
      || (|s| == 1 && s[0] as int >= 0x1_0000)
  {
    if |s| >= 3 {
      assert s == s[..|s| - 1] + [s[|s| - 1]];
      Utf16Snoc(s[..|s| - 1], s[|s| - 1]);
      assert |Utf16(s[..|s| - 1])| >= 2;
    } else if |s| == 2 {
      assert s == [s[0]] + [s[1]];
      Utf16Snoc([s[0]], s[1]);
      assert Utf16([s[0]]) == Utf16Char(s[0]) by { assert [s[0]][..0] == []; }
    } else if |s| == 1 {
      assert s[..0] == [];
    }
  }

  /** The quirk of the `length == 2` test: a text of two code units is
      split around a space (with `.` as its first unit turned into `,`),
      so it is never shown as typed. A single emoji is two code units and
      is split between its surrogate halves. */
  lemma ParseTwoCharText(s: string)
    requires |Utf16(s)| == 2
    ensures var u := Utf16(s); Parse(Text(s)) == [if u[0] == Dot then Comma else u[0], Space, u[1]]
    ensures Parse(Text(s)) != Utf16(s)
  {
    var u := Utf16(s);
    assert IsFirst(u[..1], 0, Dot) <==> u[0] == Dot;
  }

  /** Answers that show the quirk: `"ab"` renders as `"a b"` and `".5"`
      as `", 5"`. */
  lemma ParseTwoCharExamples()
    ensures Parse(Text("ab")) == Utf16("a b")
    ensures Parse(Text(".5")) == Utf16(", 5")
  {
    Utf16Two('a', 'b');
    Utf16Three('a', ' ', 'b');
    ParseTwoCharText("ab");
    Utf16Two('.', '5');
    Utf16Three(',', ' ', '5');
    ParseTwoCharText(".5");
  }

  /** The emoji U+1F600 is two code units, so it is split between its
      surrogate halves; `"a"` followed by it is three code units and is
      shown as typed. */
  lemma ParseEmojiExamples()
    ensures Parse(Text("\U{1F600}")) == [0xD83D, Space, 0xDE00]
    ensures Parse(Text("a\U{1F600}")) == Utf16("a\U{1F600}")
  {
    assert Utf16("\U{1F600}") == [0xD83D, 0xDE00] by {
      assert "\U{1F600}"[..0] == [];
    }
    ParseTwoCharText("\U{1F600}");
    assert |Utf16("a\U{1F600}")| == 3 by {
      assert "a\U{1F600}" == "a" + "\U{1F600}";
      Utf16Snoc("a", '\U{1F600}');
      assert "a"[..0] == [];
    }
  }

  /** The colour of a student's name: default when the status is truthy,
      blue when it is falsy but not `null`, grey when it is `null`. */
  function NameColor(status: Value): (c: string)
    ensures c == "" <==> Truthy(status)
    ensures c == "blue" <==> !Truthy(status) && status != Null
    ensures c == "grey" <==> status == Null
  {
    if Truthy(status) then "" else if status != Null then "blue" else "grey"
  }

  /** The tri-state status `true` / `false` / `null`. */
  lemma NameColorTriState()
    ensures NameColor(Bool(true)) == ""
    ensures NameColor(Bool(false)) == "blue"
    ensures NameColor(Null) == "grey"
  {
  }

  /** One answer cell: the first answer, then (only when there are several)
      a second line with the number of answers, `:` and the last answer;
      green when the correctness flag is truthy. */
  function RenderCell(c: AnswerCell): (d: DataCell)
    ensures d.background == "green" <==> Truthy(c.correct)
    ensures d.background != "green" ==> d.background == ""
    ensures |d.lines| == 0 <==> c.answers.None? || |c.answers.value| == 0
    ensures |d.lines| > 0 ==> d.lines[0] == Parse(c.answers.value[0])
    ensures |d.lines| == 2 <==> c.answers.Some? && |c.answers.value| > 1
    ensures |d.lines| <= 2
  {
    var background := if Truthy(c.correct) then "green" else "";
    match c.answers
    case None => DataCell([], background)
    case Some(answers) =>
      if |answers| == 0 then DataCell([], background)
      else if |answers| > 1 then
        DataCell([Parse(answers[0]), NatToString(|answers|) + [Colon] + Parse(answers[|answers| - 1])], background)
      else DataCell([Parse(answers[0])], background)
  }

  /** The background depends on the correctness flag alone, never on the answers. */
  lemma BackgroundIgnoresAnswers(c1: AnswerCell, c2: AnswerCell)
    requires Truthy(c1.correct) == Truthy(c2.correct)
    ensures RenderCell(c1).background == RenderCell(c2).background
  {
  }

  /** The second line reads back: the digits before its first `:`, with no
      leading zero, give the number of answers, and what follows is the
      last answer. */
  lemma SecondLineReadsBack(c: AnswerCell)
    requires c.answers.Some? && |c.answers.value| > 1
    ensures var answers := c.answers.value; var line := RenderCell(c).lines[1];
      exists k :: 0 <= k < |line| && line[k] == Colon && IsDigits(line[..k])
        && line[0] != '0' as int && DecimalValue(line[..k]) == |answers|
        && line[k + 1..] == Parse(answers[|answers| - 1])
  {
    var answers := c.answers.value;
    var line := RenderCell(c).lines[1];
    var digits := NatToString(|answers|);
    var k := |digits|;
    assert line == digits + [Colon] + Parse(answers[|answers| - 1]);
    assert line[..k] == digits;
    DecimalRoundTrip(|answers|);
    assert line[k] == Colon;
    assert line[k + 1..] == Parse(answers[|answers| - 1]);
  }

  /** `[7.5, 'pts']` renders as `7,5 pts`. */
  lemma ParsePairExample()
    ensures Parse(Pair(Num("7.5"), Str("pts"))) == Utf16("7,5 pts")
  {
    ParsedPairUnits();
    ShownPairUnits();
  }

  lemma ParsedPairUnits()
    ensures Parse(Pair(Num("7.5"), Str("pts"))) == [0x37, Comma, 0x35, Space, 0x70, 0x74, 0x73]
  {
    Utf16Three('7', '.', '5');
    Utf16Three('p', 't', 's');
    DecimalCommaExample();
  }

  lemma ShownPairUnits()
    ensures Utf16("7,5 pts") == [0x37, Comma, 0x35, Space, 0x70, 0x74, 0x73]
  {
    assert "7,5 pts" == "7,5" + " " + "pts";
    Utf16Concat("7,5" + " ", "pts");
    Utf16Concat("7,5", " ");
    Utf16Three('7', ',', '5');
    Utf16Three('p', 't', 's');
    assert Utf16(" ") == [Space] by { assert " "[..0] == []; }
  }

  lemma DecimalCommaExample()
    ensures ReplaceFirst([0x37, Dot, 0x35], Dot, Comma) == [0x37, Comma, 0x35]
  {
    var t: JsString := [0x37, Dot, 0x35];
    var r := ReplaceFirst(t, Dot, Comma);
    assert !IsFirst(t, 0, Dot);
    assert IsFirst(t, 1, Dot) by { assert t[..1] == [0x37]; }
    assert !IsFirst(t, 2, Dot) by { assert t[..2][1] == Dot; }
  }

  /** A worked example: `[true, [[7.5, 'pts']]]` shows `7,5 pts` on green. */
  lemma PairCellExample()
    ensures RenderCell(AnswerCell(Bool(true), Some([Pair(Num("7.5"), Str("pts"))])))
      == DataCell([Utf16("7,5 pts")], "green")
  {
    ParsePairExample();
  }

  /** A worked example: `[false, [1, 2, 3]]` shows `1` and `3:3` plainly,
      and an empty answer list shows nothing. */
  lemma ListCellExample()
    ensures RenderCell(AnswerCell(Bool(false), Some([Number("1"), Number("2"), Number("3")])))
      == DataCell([Utf16("1"), Utf16("3:3")], "")
    ensures RenderCell(AnswerCell(Bool(false), Some([]))) == DataCell([], "")
  {
    AsciiUtf16("1");
    AsciiUtf16("3");
    AsciiUtf16("3:3");
    assert NatToString(3) == ['3' as int];
    var three := [Number("1"), Number("2"), Number("3")];
    assert three[|three| - 1] == Number("3");
    assert NatToString(|three|) + [Colon] + Parse(Number("3")) == Utf16("3:3");
  }

  /** The row of one student: the coloured name, then one cell per question. */
  function StudentRow(student: Student): (r: Row)
    ensures r.name == NameCell(student.name, NameColor(student.status))
    ensures |r.cells| == |student.cells|
    ensures forall q :: 0 <= q < |student.cells| ==> r.cells[q] == RenderCell(student.cells[q])
  {
    Row(NameCell(student.name, NameColor(student.status)),
        seq(|student.cells|, q requires 0 <= q < |student.cells| => RenderCell(student.cells[q])))
  }

  /** The inner loop of `students_list`: one cell per question, in order. */
  method BuildCells(student: Student) returns (cells: seq<DataCell>)
    ensures cells == StudentRow(student).cells
  {
    cells := [];
    for q := 0 to |student.cells|
      invariant |cells| == q
      invariant forall p :: 0 <= p < q ==> cells[p] == RenderCell(student.cells[p])
    {
      cells := cells + [RenderCell(student.cells[q])];
    }
  }

  /** The header loop of `students_list`: the group name, then each question's title. */
  method BuildHeader(group: string, questions: seq<Question>) returns (header: seq<string>)
    ensures |header| == 1 + |questions| && header[0] == group
    ensures forall q :: 0 <= q < |questions| ==> header[q + 1] == questions[q].title
  {
    header := [group];
    for q := 0 to |questions|
      invariant |header| == 1 + q && header[0] == group
      invariant forall p :: 0 <= p < q ==> header[p + 1] == questions[p].title
    {
      header := header + [questions[q].title];
    }
  }

  /** The row loop of `students_list`: one row per student, in order. */
  method BuildRows(students: seq<Student>) returns (rows: seq<Row>)
    ensures |rows| == |students|
    ensures forall s :: 0 <= s < |students| ==> rows[s] == StudentRow(students[s])
  {
    rows := [];
    for s := 0 to |students|
      invariant |rows| == s
      invariant forall t :: 0 <= t < s ==> rows[t] == StudentRow(students[t])
    {
      var cells := BuildCells(students[s]);
      rows := rows + [Row(NameCell(students[s].name, NameColor(students[s].status)), cells)];
    }
  }

  /** `Connection.students_list`: shows the table panel and rebuilds the
      table: a header with the group name and each question title in
      order, then one row per student with the coloured name and one cell
      per question. */
  method StudentsList(page: Page, group: string, questions: seq<Question>, students: seq<Student>)
    returns (shown: Page, table: Table)
    ensures shown == Show(page, Some("table"))
    ensures |table.header| == 1 + |questions| && table.header[0] == group
    ensures forall q :: 0 <= q < |questions| ==> table.header[q + 1] == questions[q].title
    ensures |table.rows| == |students|
    ensures forall s :: 0 <= s < |students| ==>
      table.rows[s].name == NameCell(students[s].name, NameColor(students[s].status))
      && |table.rows[s].cells| == |students[s].cells|
    ensures forall s, q :: 0 <= s < |students| && 0 <= q < |table.rows[s].cells| ==>
      table.rows[s].cells[q] == RenderCell(students[s].cells[q])
  {
    shown := Show(page, Some("table"));
    var header := BuildHeader(group, questions);
    var rows := BuildRows(students);
    table := Table(header, rows);
  }
}
