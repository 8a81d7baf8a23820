/** ObjectIO INI files: variables `name=contents;description`, sections `[name];description`. The
    printer first moves variables in front of sections, in place; that is what lets the printed
    text be read back. */
module IniFile {
  import opened Sequences

  datatype Variable = Variable(name: string, contents: string, description: string)

  /** An entry of a file: a variable, or a section of variables. */
  datatype Item =
    | Var(v: Variable)
    | Hub(name: string, description: string, vars: seq<Variable>)

  // ---------- cutting lines ----------

  /** Position of the first c, or the length. */
  function Find(s: string, c: char): (i: nat)
    ensures i <= |s| && (i < |s| ==> s[i] == c) && c !in s[..i]
  {
    if s == [] || s[0] == c then 0 else 1 + Find(s[1..], c)
  }

  /** cutfrom: the line before the first c, and what followed it. */
  function CutFrom(line: string, c: char): (r: (string, string)) {
    var i := Find(line, c);
    (line[..i], if i < |line| then line[i + 1..] else "")
  }

  predicate IsSpace(c: char) {
    c == ' ' || '\t' <= c <= '\r'
  }

  function TrimStart(s: string): string {
    if s == [] || !IsSpace(s[0]) then s else TrimStart(s[1..])
  }

  /** firstchar */
  method FirstChar(buf: string) returns (r: string)
    ensures r == TrimStart(buf)
  {
    var i := 0;
    while i < |buf| && IsSpace(buf[i])
      invariant i <= |buf| && TrimStart(buf[i..]) == TrimStart(buf)
    {
      assert buf[i..][1..] == buf[i + 1..];
      i := i + 1;
    }
    r := buf[i..];
  }

  /** What a reader makes of a raw line: up to the first CR, without leading white space. */
  function Clean(raw: string): string {
    TrimStart(raw[..Find(raw, '\r')])
  }

  lemma EmptyIsClean()
    ensures Clean("") == ""
  {
  }

  /** The line up to the first CR, without leading white space. */
  method CleanLine(raw: string) returns (line: string)
    ensures line == Clean(raw)
  {
    line := FirstChar(raw[..Find(raw, '\r')]);
  }

  predicate IsHeader(line: string) {
    line != [] && line[0] == '['
  }

  // ---------- reading one line ----------

  /** Var::create. The contents pass through a C string. */
  function VarOf(line: string): Variable {
    var (rest, description) := CutFrom(line, ';');
    var (name, contents) := CutFrom(rest, '=');
    Variable(name, contents[..Find(contents, '\0')], description)
  }

  /** The header part of cINIFile::read. */
  function HeaderOf(line: string, vars: seq<Variable>): Item
    requires IsHeader(line)
  {
    var (rest, description) := CutFrom(line[1..], ';');
    Hub(CutFrom(rest, ']').0, description, vars)
  }

  lemma EmptyLineIsEmptyVariable()
    ensures VarOf("") == Variable("", "", "")
  {
  }

  // ---------- printing one line ----------

  function VarLine(v: Variable): string {
    (if v.name != [] then v.name + "=" + v.contents else "")
    + (if v.description != [] then ";" + v.description else "")
  }

  function HeaderLine(h: Item): string
    requires h.Hub?
  {
    "[" + h.name + "]" + (if h.description != [] then ";" + h.description else "")
  }

  // ---------- the domain ----------

  ghost predicate OneLine(s: string) {
    '\n' !in s && '\r' !in s
  }

  /** Nothing in a field would be cut off or taken for something else. */
  ghost predicate Uncut(v: Variable) {
    && OneLine(v.name) && OneLine(v.contents) && OneLine(v.description)
    && ';' !in v.name && '=' !in v.name
    && ';' !in v.contents && '\0' !in v.contents
    && (v.name != [] ==> !IsSpace(v.name[0]) && v.name[0] != '[')
  }

  /** Without a name no contents are printed. */
  ghost predicate GoodVar(v: Variable) {
    Uncut(v) && (v.name == [] ==> v.contents == [])
  }

  ghost predicate GoodVars(vs: seq<Variable>) {
    forall i :: 0 <= i < |vs| ==> GoodVar(vs[i])
  }

  ghost predicate GoodHub(h: Item) {
    && h.Hub?
    && OneLine(h.name) && OneLine(h.description)
    && ';' !in h.name && ']' !in h.name
    && GoodVars(h.vars)
  }

  ghost predicate Good(items: seq<Item>) {
    forall i :: 0 <= i < |items| ==> if items[i].Var? then GoodVar(items[i].v) else GoodHub(items[i])
  }

  // ---------- every line ----------

  lemma {:induction false} FindFirst(s: string, c: char, t: string)
    requires c !in s
    ensures Find(s + [c] + t, c) == |s|
    ensures Find(s, c) == |s|
  {
    if s == [] {
    } else {
      FindFirst(s[1..], c, t);
      assert (s + [c] + t)[1..] == s[1..] + [c] + t;
    }
  }

  /** Cutting finds the first separator, or none. */
  lemma CutAt(s: string, c: char, t: string)
    requires c !in s
    ensures CutFrom(s + [c] + t, c) == (s, t)
    ensures CutFrom(s, c) == (s, "")
  {
    FindFirst(s, c, t);
    assert (s + [c] + t)[|s| + 1..] == t && (s + [c] + t)[..|s|] == s && s[..|s|] == s;
  }

  /** isspace in the C locale: blank, tab, newline, vertical tab, form feed and return. */
  lemma WhiteSpace(c: char)
    ensures IsSpace(c) <==> c as int in {0x20, 0x09, 0x0A, 0x0B, 0x0C, 0x0D}
  {
  }

  /** A line is cut at the first CR and loses the white space at its start. */
  lemma EveryRawLine(space: string, line: string, junk: string)
    requires '\r' !in space && forall c :: c in space ==> IsSpace(c)
    requires '\r' !in line && (line != [] ==> !IsSpace(line[0]))
    ensures Clean(space + line) == line && Clean(space + line + "\r" + junk) == line
  {
    var raw := space + line;
    assert '\r' !in raw;
    FindFirst(raw, '\r', junk);
    assert raw[..|raw|] == raw && (raw + ['\r'] + junk)[..|raw|] == raw;
    TrimsExactly(space, line);
  }

  lemma {:induction false} TrimsExactly(space: string, line: string)
    requires forall c :: c in space ==> IsSpace(c)
    requires line != [] ==> !IsSpace(line[0])
    ensures TrimStart(space + line) == line
  {
    if space == [] {
      assert space + line == line;
    } else {
      TrimsExactly(space[1..], line);
      assert (space + line)[1..] == space[1..] + line;
      assert space[0] in space && IsSpace(space[0]);
    }
  }

  /** The first half of a line that a variable is read from: a name alone, or with contents. */
  lemma EveryAssignment(name: string, contents: string, junk: string)
    requires '=' !in name && '\0' !in contents
    ensures CutFrom(name, '=') == (name, "")
    ensures CutFrom(name + "=" + contents, '=') == (name, contents)
    ensures CutFrom(name + "=" + contents + "\0" + junk, '=') == (name, contents + "\0" + junk)
    ensures contents[..Find(contents, '\0')] == contents
    ensures (contents + "\0" + junk)[..Find(contents + "\0" + junk, '\0')] == contents
    ensures ""[..Find("", '\0')] == ""
  {
    CutAt(name, '=', contents);
    CutAt(name, '=', contents + "\0" + junk);
    FindFirst(contents, '\0', junk);
    hide CutFrom, Find;
    assert name + "=" + contents + "\0" + junk == name + ['='] + (contents + "\0" + junk);
    assert (contents + ['\0'] + junk)[..|contents|] == contents && contents[..|contents|] == contents;
  }

  /** How every line is read as a variable. Up to the first ';' it is a name, or a name and after the
      first '=' contents, which end at the first NUL; what follows the first ';' is the description. */
  lemma EveryVariableLine(name: string, contents: string, junk: string, d: string)
    requires ';' !in name && '=' !in name && ';' !in contents && '\0' !in contents && ';' !in junk
    ensures VarOf(name) == Variable(name, "", "")
    ensures VarOf(name + ";" + d) == Variable(name, "", d)
    ensures VarOf(name + "=" + contents) == Variable(name, contents, "")
    ensures VarOf(name + "=" + contents + ";" + d) == Variable(name, contents, d)
    ensures VarOf(name + "=" + contents + "\0" + junk) == Variable(name, contents, "")
    ensures VarOf(name + "=" + contents + "\0" + junk + ";" + d) == Variable(name, contents, d)
  {
    EveryAssignment(name, contents, junk);
    CutAt(name, ';', d);
    CutAt(name + "=" + contents, ';', d);
    CutAt(name + "=" + contents + "\0" + junk, ';', d);
    hide CutFrom, Find;
  }

  /** A header line that is read as this section. */
  predicate IsHeaderOf(line: string, vars: seq<Variable>, h: Item) {
    IsHeader(line) && HeaderOf(line, vars) == h
  }

  lemma HeaderBody(body: string, vars: seq<Variable>)
    ensures var (rest, d) := CutFrom(body, ';'); IsHeaderOf("[" + body, vars, Hub(CutFrom(rest, ']').0, d, vars))
  {
    hide CutFrom;
    assert ("[" + body)[1..] == body;
  }

  /** How every header line is read: the name ends at the first ']', if there is one before the
      first ';', and what follows that is the description. */
  lemma EveryHeaderLine(name: string, junk: string, d: string, vars: seq<Variable>)
    requires ';' !in name && ']' !in name && ';' !in junk
    ensures IsHeaderOf("[" + name, vars, Hub(name, "", vars))
    ensures IsHeaderOf("[" + (name + ";" + d), vars, Hub(name, d, vars))
    ensures IsHeaderOf("[" + (name + "]" + junk), vars, Hub(name, "", vars))
    ensures IsHeaderOf("[" + (name + "]" + junk + ";" + d), vars, Hub(name, d, vars))
  {
    CutAt(name, ']', junk);
    CutAt(name, ';', d);
    CutAt(name + "]" + junk, ';', d);
    HeaderBody(name, vars);
    HeaderBody(name + ";" + d, vars);
    HeaderBody(name + "]" + junk, vars);
    HeaderBody(name + "]" + junk + ";" + d, vars);
    hide CutFrom, IsHeaderOf;
  }

  /** The line printed for a variable: no name, no contents; no description, no ';'. */
  lemma EveryPrintedLine(name: string, contents: string, d: string)
    requires name != [] && d != []
    ensures VarLine(Variable(name, contents, "")) == name + "=" + contents
    ensures VarLine(Variable(name, contents, d)) == name + "=" + contents + ";" + d
    ensures VarLine(Variable("", contents, "")) == ""
    ensures VarLine(Variable("", contents, d)) == ";" + d
    ensures forall vars :: HeaderLine(Hub(name, "", vars)) == "[" + name + "]"
    ensures forall vars :: HeaderLine(Hub(name, d, vars)) == "[" + name + "]" + ";" + d
  {
  }

  // ---------- one line there and back ----------

  lemma CleanKeeps(line: string)
    requires '\r' !in line && (line != [] ==> !IsSpace(line[0]))
    ensures Clean(line) == line
  {
    FindFirst(line, '\r', "");
    assert line[..|line|] == line;
  }

  /** name=contents, the part of a variable's line before the description. */
  function Assignment(v: Variable): string {
    if v.name != [] then v.name + "=" + v.contents else ""
  }

  lemma AssignmentRoundTrip(v: Variable)
    requires GoodVar(v)
    ensures CutFrom(Assignment(v), '=') == (v.name, v.contents)
    ensures ';' !in Assignment(v)
  {
    CutAt(v.name, '=', v.contents);
    if v.name != [] {
      assert Assignment(v) == v.name + ['='] + v.contents;
    }
  }

  lemma VarLineIsPlain(v: Variable)
    requires GoodVar(v)
    ensures Clean(VarLine(v)) == VarLine(v) && !IsHeader(VarLine(v)) && '\n' !in VarLine(v)
  {
    hide Clean;
    assert v.name != [] ==> VarLine(v)[0] == v.name[0];
    assert v.name == [] && v.description != [] ==> VarLine(v)[0] == ';';
    CleanKeeps(VarLine(v));
  }

  lemma VarRoundTrip(v: Variable)
    requires GoodVar(v)
    ensures Clean(VarLine(v)) == VarLine(v) && !IsHeader(VarLine(v)) && '\n' !in VarLine(v)
    ensures VarOf(VarLine(v)) == v
  {
    VarLineIsPlain(v);
    AssignmentRoundTrip(v);
    VarLineCuts(v);
    FindFirst(v.contents, '\0', "");
    hide CutFrom, VarLine, Assignment, Clean, Find;
    assert v.contents[..|v.contents|] == v.contents;
  }

  lemma VarLineCuts(v: Variable)
    requires ';' !in Assignment(v)
    ensures CutFrom(VarLine(v), ';') == (Assignment(v), v.description)
  {
    hide CutFrom;
    CutAt(Assignment(v), ';', v.description);
    if v.description != [] {
      assert VarLine(v) == Assignment(v) + [';'] + v.description;
    } else {
      assert VarLine(v) == Assignment(v);
    }
  }

  lemma HeaderLineCuts(h: Item)
    requires h.Hub? && ';' !in h.name
    ensures CutFrom(HeaderLine(h)[1..], ';') == (h.name + "]", h.description)
  {
    hide CutFrom;
    var head := h.name + "]";
    CutAt(head, ';', h.description);
    if h.description != [] {
      assert HeaderLine(h)[1..] == head + [';'] + h.description;
    } else {
      assert HeaderLine(h)[1..] == head;
    }
  }

  lemma HeaderRoundTrip(h: Item, vars: seq<Variable>)
    requires GoodHub(h)
    ensures Clean(HeaderLine(h)) == HeaderLine(h) && IsHeader(HeaderLine(h)) && '\n' !in HeaderLine(h)
    ensures HeaderOf(HeaderLine(h), vars) == h.(vars := vars)
  {
    CleanKeeps(HeaderLine(h));
    HeaderLineCuts(h);
    CutAt(h.name, ']', "");
    hide CutFrom, Clean;
    assert h.name + "]" == h.name + [']'] + "";
  }

  // ---------- the domain is exact ----------

  lemma {:induction false} TrimStartKeeps(s: string)
    ensures TrimStart(s) != [] ==> !IsSpace(TrimStart(s)[0])
    ensures forall c :: c in TrimStart(s) ==> c in s
  {
    if s == [] || !IsSpace(s[0]) {
    } else {
      TrimStartKeeps(s[1..]);
    }
  }

  lemma CleanIsClean(raw: string)
    requires '\n' !in raw
    ensures OneLine(Clean(raw)) && (Clean(raw) != [] ==> !IsSpace(Clean(raw)[0]))
  {
    TrimStartKeeps(raw[..Find(raw, '\r')]);
  }

  lemma CutParts(line: string, c: char)
    requires OneLine(line)
    ensures c !in CutFrom(line, c).0 && CutFrom(line, c).0 <= line
    ensures OneLine(CutFrom(line, c).0) && OneLine(CutFrom(line, c).1)
  {
  }

  /** Whatever is read from a line that is no header has fields that print and read back, but for
      contents without a name. */
  lemma ReadVariableIsUncut(raw: string)
    requires '\n' !in raw && !IsHeader(Clean(raw))
    ensures Uncut(VarOf(Clean(raw)))
  {
    var line := Clean(raw);
    CleanIsClean(raw);
    CutParts(line, ';');
    var rest := CutFrom(line, ';').0;
    CutParts(rest, '=');
    ContentsOf(rest);
    hide Clean, CutFrom, Find, OneLine;
  }

  lemma ContentsOf(rest: string)
    requires OneLine(rest) && ';' !in rest
    ensures var contents := CutFrom(rest, '=').1;
            var cut := contents[..Find(contents, '\0')];
            OneLine(cut) && ';' !in cut && '\0' !in cut
  {
  }

  /** A variable comes back from its printed line exactly when it is in the domain. */
  lemma VarRoundTripExactly(v: Variable)
    ensures GoodVar(v) <==> '\n' !in VarLine(v) && !IsHeader(Clean(VarLine(v))) && VarOf(Clean(VarLine(v))) == v
  {
    if GoodVar(v) {
      VarRoundTrip(v);
    } else if '\n' !in VarLine(v) && !IsHeader(Clean(VarLine(v))) && VarOf(Clean(VarLine(v))) == v {
      ReadVariableIsUncut(VarLine(v));
      NamelessHasNoContents(v);
    }
  }

  lemma NamelessHasNoContents(v: Variable)
    requires v.name == [] && '\n' !in VarLine(v)
    ensures VarOf(Clean(VarLine(v))).contents == []
  {
    var line := VarLine(v);
    var cleaned := Clean(line);
    if v.description != [] {
      assert line[0] == ';';
      assert Find(line, '\r') > 0;
      assert cleaned == line[..Find(line, '\r')] && cleaned[0] == ';';
    }
    assert CutFrom(cleaned, ';').0 == "";
  }

  /** A section header comes back from its printed line exactly when it is in the domain. */
  lemma HeaderRoundTripExactly(h: Item)
    requires h.Hub? && GoodVars(h.vars)
    ensures GoodHub(h) <==> '\n' !in HeaderLine(h) && IsHeader(Clean(HeaderLine(h)))
                            && HeaderOf(Clean(HeaderLine(h)), h.vars) == h
  {
    var line := Clean(HeaderLine(h));
    if GoodHub(h) {
      HeaderRoundTrip(h, h.vars);
    } else if '\n' !in HeaderLine(h) && IsHeader(line) && HeaderOf(line, h.vars) == h {
      ReadHeaderIsUncut(HeaderLine(h), h.vars);
    }
  }

  lemma ReadHeaderIsUncut(raw: string, vars: seq<Variable>)
    requires '\n' !in raw && IsHeader(Clean(raw))
    ensures var h := HeaderOf(Clean(raw), vars);
            h.Hub? && h.vars == vars && OneLine(h.name) && OneLine(h.description) && ';' !in h.name && ']' !in h.name
  {
    var line := Clean(raw);
    CleanIsClean(raw);
    CutParts(line[1..], ';');
    var rest := CutFrom(line[1..], ';').0;
    CutParts(rest, ']');
    hide Clean, CutFrom;
  }

  // ---------- lines and text ----------

  function Join(lines: seq<string>): string {
    if lines == [] then ""
    else if |lines| == 1 then lines[0]
    else lines[0] + "\n" + Join(lines[1..])
  }

  /** The lines getline gives; text without a newline is one line. */
  function Split(text: string): (lines: seq<string>)
    ensures lines != []
    decreases |text|
  {
    var i := Find(text, '\n');
    if i == |text| then [text] else [text[..i]] + Split(text[i + 1..])
  }

  ghost predicate NoNewlines(lines: seq<string>) {
    forall i :: 0 <= i < |lines| ==> '\n' !in lines[i]
  }

  lemma {:induction false} SplitJoin(lines: seq<string>)
    requires lines != [] && NoNewlines(lines)
    ensures Split(Join(lines)) == lines
  {
    var head, tail := lines[0], lines[1..];
    FindFirst(head, '\n', Join(tail));
    assert lines == [head] + tail;
    if tail == [] {
      assert Join(lines) == head;
      assert Split(head) == [head];
    } else {
      SplitJoin(tail);
      var text := head + ['\n'] + Join(tail);
      assert Join(lines) == text;
      assert text[|head| + 1..] == Join(tail) && text[..|head|] == head;
    }
  }

  function VarLines(vs: seq<Variable>): (lines: seq<string>)
    ensures |lines| == |vs| && forall i :: 0 <= i < |vs| ==> lines[i] == VarLine(vs[i])
  {
    seq(|vs|, i requires 0 <= i < |vs| => VarLine(vs[i]))
  }

  function LinesOf(item: Item): seq<string> {
    match item
    case Var(v) => [VarLine(v)]
    case Hub(_, _, vars) => [HeaderLine(item)] + VarLines(vars)
  }

  function AllLines(items: seq<Item>): seq<string> {
    if items == [] then [] else LinesOf(items[0]) + AllLines(items[1..])
  }

  // ---------- the parser, on lines ----------

  /** Hub::read: variables up to a header or the end. A header on the very last line ends the file
      as the end does; when the stream is already at its end one empty line is still read. */
  function ParseSection(lines: seq<string>): (seq<Variable>, seq<string>) {
    if lines == [] then ([VarOf("")], [])
    else
      var line := Clean(lines[0]);
      if IsHeader(line) then ([], if |lines| == 1 then [] else lines)
      else if |lines| == 1 then ([VarOf(line)], [])
      else
        var (vs, rest) := ParseSection(lines[1..]);
        ([VarOf(line)] + vs, rest)
  }

  lemma {:induction false} ParseSectionShortens(lines: seq<string>)
    ensures |ParseSection(lines).1| <= |lines|
  {
    if |lines| <= 1 {
    } else {
      ParseSectionShortens(lines[1..]);
    }
  }

  /** cINIFile::read */
  function ParseFile(lines: seq<string>): seq<Item>
    requires lines != []
    decreases |lines|
  {
    var line := Clean(lines[0]);
    if IsHeader(line) then
      var (vs, rest) := ParseSection(lines[1..]);
      ParseSectionShortens(lines[1..]);
      [HeaderOf(line, vs)] + (if rest == [] then [] else ParseFile(rest))
    else
      [Var(VarOf(line))] + (if |lines| == 1 then [] else ParseFile(lines[1..]))
  }

  /** ParseSection, one line at a time. */
  lemma SectionStep(lines: seq<string>)
    ensures lines == [] ==> ParseSection(lines) == ([VarOf(Clean(""))], []) && !IsHeader(Clean(""))
    ensures lines != [] && IsHeader(Clean(lines[0])) ==> ParseSection(lines) == ([], if |lines| == 1 then [] else lines)
    ensures lines != [] && !IsHeader(Clean(lines[0])) ==>
              var (v, tail) := (VarOf(Clean(lines[0])), ParseSection(lines[1..]));
              ParseSection(lines) == if |lines| == 1 then ([v], []) else ([v] + tail.0, tail.1)
  {
    assert Clean("") == "";
    hide VarOf;
  }

  /** ParseFile, one line at a time. */
  lemma FileStep(lines: seq<string>)
    requires lines != []
    ensures |ParseSection(lines[1..]).1| < |lines|
    ensures IsHeader(Clean(lines[0])) ==>
              var (vs, rest) := ParseSection(lines[1..]);
              ParseFile(lines) == [HeaderOf(Clean(lines[0]), vs)] + (if rest == [] then [] else ParseFile(rest))
    ensures !IsHeader(Clean(lines[0])) ==>
              ParseFile(lines) == [Var(VarOf(Clean(lines[0])))] + (if |lines| == 1 then [] else ParseFile(lines[1..]))
  {
    ParseSectionShortens(lines[1..]);
    hide VarOf, HeaderOf, Clean, ParseSection, IsHeader;
  }

  // ---------- variables before sections ----------

  /** The variables of a list, in order. */
  function VarsOf(items: seq<Item>): seq<Variable> {
    if items == [] then []
    else
      var last := items[|items| - 1];
      VarsOf(items[..|items| - 1]) + (if last.Var? then [last.v] else [])
  }

  /** The sections of a list, in order. */
  function HubsOf(items: seq<Item>): seq<Item> {
    if items == [] then []
    else
      var last := items[|items| - 1];
      HubsOf(items[..|items| - 1]) + (if last.Hub? then [last] else [])
  }

  function AsItems(vs: seq<Variable>): (items: seq<Item>)
    ensures |items| == |vs| && forall i :: 0 <= i < |vs| ==> items[i] == Var(vs[i])
  {
    seq(|vs|, i requires 0 <= i < |vs| => Var(vs[i]))
  }

  /** The stable partition: variables first, then sections. */
  function Partition(items: seq<Item>): seq<Item> {
    AsItems(VarsOf(items)) + HubsOf(items)
  }

  lemma {:induction false} HubsAreHubs(items: seq<Item>)
    ensures forall i :: 0 <= i < |HubsOf(items)| ==> HubsOf(items)[i].Hub?
  {
    if items == [] {
    } else {
      HubsAreHubs(items[..|items| - 1]);
    }
  }

  lemma PartitionOfNothing()
    ensures Partition([]) == [] && VarsOf([]) == []
  {
  }

  lemma PartsGrow(items: seq<Item>, item: Item)
    ensures VarsOf(items + [item]) == VarsOf(items) + (if item.Var? then [item.v] else [])
    ensures HubsOf(items + [item]) == HubsOf(items) + (if item.Hub? then [item] else [])
  {
    assert (items + [item])[..|items|] == items;
  }

  lemma PartitionGrows(items: seq<Item>, item: Item)
    ensures |VarsOf(items)| <= |Partition(items)|
    ensures item.Hub? ==>
              VarsOf(items + [item]) == VarsOf(items) && Partition(items + [item]) == Partition(items) + [item]
    ensures item.Var? ==>
              var k := |VarsOf(items)|;
              && VarsOf(items + [item]) == VarsOf(items) + [item.v]
              && Partition(items + [item]) == Partition(items)[..k] + [item] + Partition(items)[k..]
  {
    PartsGrow(items, item);
    hide VarsOf, HubsOf;
    var vs, hs := VarsOf(items), HubsOf(items);
    if item.Hub? {
      Associate(AsItems(vs), hs, [item]);
    } else {
      assert AsItems(vs + [item.v]) == AsItems(vs) + [item];
    }
  }

  lemma {:induction false} PartsOfVariables(vs: seq<Variable>)
    ensures VarsOf(AsItems(vs)) == vs && HubsOf(AsItems(vs)) == []
  {
    if vs == [] {
    } else {
      var front, last := vs[..|vs| - 1], vs[|vs| - 1];
      PartsOfVariables(front);
      PartsGrow(AsItems(front), Var(last));
      assert AsItems(vs) == AsItems(front) + [Var(last)];
      hide VarsOf, HubsOf;
      assert vs == front + [last];
    }
  }

  lemma {:induction false} PartsOfPartition(vs: seq<Variable>, hs: seq<Item>)
    requires forall i :: 0 <= i < |hs| ==> hs[i].Hub?
    ensures VarsOf(AsItems(vs) + hs) == vs && HubsOf(AsItems(vs) + hs) == hs
    decreases |hs|
  {
    hide VarsOf, HubsOf, AsItems;
    if hs == [] {
      PartsOfVariables(vs);
      assert AsItems(vs) + [] == AsItems(vs);
    } else {
      var front, last := hs[..|hs| - 1], hs[|hs| - 1];
      PartsOfPartition(vs, front);
      PartsGrow(AsItems(vs) + front, last);
      Associate(AsItems(vs), front, [last]);
      assert hs == front + [last] && vs + [] == vs;
    }
  }

  lemma {:induction false} PartitionPermutes(items: seq<Item>)
    ensures multiset(Partition(items)) == multiset(items)
  {
    if items == [] {
    } else {
      var front, last := items[..|items| - 1], items[|items| - 1];
      PartitionPermutes(front);
      PartitionGrows(front, last);
      hide VarsOf, Partition;
      assert items == front + [last];
      var k := |VarsOf(front)|;
      assert Partition(front) == Partition(front)[..k] + Partition(front)[k..];
    }
  }

  // ---------- reading back ----------

  lemma AllLinesFront(items: seq<Item>)
    ensures AllLines(items) == if items == [] then [] else LinesOf(items[0]) + AllLines(items[1..])
  {
    hide LinesOf;
  }

  lemma {:induction false} AllLinesAppend(a: seq<Item>, b: seq<Item>)
    ensures AllLines(a + b) == AllLines(a) + AllLines(b)
  {
    AllLinesFront(a);
    AllLinesFront(a + b);
    hide AllLines;
    if a == [] {
      assert a + b == b;
    } else {
      AllLinesAppend(a[1..], b);
      assert (a + b)[1..] == a[1..] + b && (a + b)[0] == a[0];
      Associate(LinesOf(a[0]), AllLines(a[1..]), AllLines(b));
    }
  }

  lemma {:induction false} LinesOfVariables(vs: seq<Variable>)
    ensures AllLines(AsItems(vs)) == VarLines(vs)
  {
    hide VarLine;
    if vs == [] {
    } else {
      LinesOfVariables(vs[1..]);
      assert AsItems(vs)[1..] == AsItems(vs[1..]);
      assert VarLines(vs) == [VarLine(vs[0])] + VarLines(vs[1..]);
    }
  }

  /** Reading one variable's line in a section, and in the file. */
  lemma SectionVariable(lines: seq<string>, v: Variable)
    requires lines != [] && !IsHeader(Clean(lines[0])) && VarOf(Clean(lines[0])) == v
    ensures ParseSection(lines) == if |lines| == 1 then ([v], [])
                                   else ([v] + ParseSection(lines[1..]).0, ParseSection(lines[1..]).1)
    ensures ParseFile(lines) == [Var(v)] + (if |lines| == 1 then [] else ParseFile(lines[1..]))
  {
    hide Clean, IsHeader, VarOf;
  }

  lemma SectionEnd(lines: seq<string>)
    requires lines != [] && IsHeader(Clean(lines[0]))
    ensures ParseSection(lines) == ([], if |lines| == 1 then [] else lines)
  {
    hide Clean, IsHeader, VarOf;
  }

  /** Lines that are no headers, read as variables. */
  function ReadVars(lines: seq<string>): (vs: seq<Variable>)
    ensures |vs| == |lines| && forall i :: 0 <= i < |lines| ==> vs[i] == VarOf(Clean(lines[i]))
  {
    seq(|lines|, i requires 0 <= i < |lines| => VarOf(Clean(lines[i])))
  }

  ghost predicate NoHeaders(lines: seq<string>) {
    forall i :: 0 <= i < |lines| ==> !IsHeader(Clean(lines[i]))
  }

  lemma ReadVarsFront(lines: seq<string>, rest: seq<string>)
    requires lines != [] && NoHeaders(lines)
    ensures !IsHeader(Clean((lines + rest)[0])) && (lines + rest)[1..] == lines[1..] + rest && NoHeaders(lines[1..])
    ensures ReadVars(lines) == [VarOf(Clean((lines + rest)[0]))] + ReadVars(lines[1..])
  {
    hide VarOf, Clean, IsHeader;
  }

  /** A section's variables end where the next header begins, or with the text; a header that is
      the last line is not given back. */
  lemma {:induction false} SectionIsRead(lines: seq<string>, rest: seq<string>)
    requires NoHeaders(lines) && (rest != [] ==> IsHeader(Clean(rest[0])))
    ensures ParseSection(lines + rest)
         == (if lines == [] && rest == [] then [Variable("", "", "")] else ReadVars(lines),
             if |rest| == 1 then [] else rest)
    decreases |lines|
  {
    var all := lines + rest;
    if lines == [] {
      assert all == rest;
      EmptyLineIsEmptyVariable();
      if rest != [] {
        SectionEnd(rest);
      }
      hide VarOf;
    } else {
      ReadVarsFront(lines, rest);
      SectionVariable(all, VarOf(Clean(all[0])));
      hide *;
      if |all| == 1 {
        assert lines[1..] == [] && rest == [];
        NoLinesNoVars();
        assert ReadVars(lines) == [VarOf(Clean(all[0]))];
      } else {
        SectionIsRead(lines[1..], rest);
        assert lines[1..] != [] || rest != [];
      }
    }
  }

  lemma NoLinesNoVars()
    ensures ReadVars([]) == []
  {
  }

  lemma AsItemsFront(vs: seq<Variable>)
    requires vs != []
    ensures AsItems(vs) == [Var(vs[0])] + AsItems(vs[1..])
  {
  }

  /** Lines at the start of the file that are no headers are read as variables, one by one. */
  lemma {:induction false} VariablesAreRead(lines: seq<string>, rest: seq<string>)
    requires NoHeaders(lines) && lines + rest != []
    ensures ParseFile(lines + rest) == AsItems(ReadVars(lines)) + (if rest == [] then [] else ParseFile(rest))
    decreases |lines|
  {
    var all := lines + rest;
    if lines == [] {
      assert all == rest;
    } else {
      ReadVarsFront(lines, rest);
      SectionVariable(all, VarOf(Clean(all[0])));
      AsItemsFront(ReadVars(lines));
      assert ReadVars(lines)[1..] == ReadVars(lines[1..]);
      var v, tail := VarOf(Clean(all[0])), ReadVars(lines[1..]);
      hide *;
      if |all| == 1 {
        assert lines[1..] == [] && rest == [];
        NoLinesNoVars();
        assert AsItems([]) == [];
      } else {
        VariablesAreRead(lines[1..], rest);
        Associate([Var(v)], AsItems(tail), if rest == [] then [] else ParseFile(rest));
      }
    }
  }

  /** A header and the lines up to the next header are read as a section. */
  lemma HeaderIsRead(header: string, lines: seq<string>, rest: seq<string>)
    requires IsHeader(Clean(header)) && NoHeaders(lines) && (rest != [] ==> IsHeader(Clean(rest[0])))
    ensures ParseFile([header] + (lines + rest))
         == [HeaderOf(Clean(header), if lines == [] && rest == [] then [Variable("", "", "")] else ReadVars(lines))]
            + (if |rest| <= 1 then [] else ParseFile(rest))
  {
    var all := [header] + (lines + rest);
    assert all[0] == header && all[1..] == lines + rest;
    FileStep(all);
    SectionIsRead(lines, rest);
    hide *;
  }

  /** A file without headers: a line that is a name alone is a variable without contents, wherever
      it stands. */
  lemma NameAloneIsRead(before: seq<string>, name: string, after: seq<string>)
    requires NoHeaders(before) && NoHeaders(after)
    requires ';' !in name && '=' !in name && '\r' !in name
    requires name != [] ==> name[0] != '[' && !IsSpace(name[0])
    ensures var items := ParseFile(before + [name] + after);
            |items| == |before| + 1 + |after| && items[|before|] == Var(Variable(name, "", ""))
  {
    var lines := before + [name] + after;
    NameAlone(name);
    AmongOthers(before, name, after);
    hide *;
    VariablesAreRead(lines, []);
    assert lines + [] == lines;
    var vs := ReadVars(lines);
    assert AsItems(vs) + [] == AsItems(vs);
  }

  lemma NameAlone(name: string)
    requires ';' !in name && '=' !in name && '\r' !in name
    requires name != [] ==> name[0] != '[' && !IsSpace(name[0])
    ensures !IsHeader(Clean(name)) && VarOf(Clean(name)) == Variable(name, "", "")
  {
    EveryRawLine("", name, "");
    EveryVariableLine(name, "", "", "");
    hide VarOf, Clean;
    assert "" + name == name;
  }

  lemma AmongOthers(before: seq<string>, line: string, after: seq<string>)
    requires NoHeaders(before) && NoHeaders(after) && !IsHeader(Clean(line))
    ensures var lines := before + [line] + after; NoHeaders(lines) && ReadVars(lines)[|before|] == VarOf(Clean(line))
  {
    hide Clean, VarOf, IsHeader;
  }

  lemma GoodVarsAreLines(vs: seq<Variable>)
    requires GoodVars(vs)
    ensures NoHeaders(VarLines(vs)) && ReadVars(VarLines(vs)) == vs
  {
    forall i | 0 <= i < |vs|
      ensures !IsHeader(Clean(VarLine(vs[i]))) && VarOf(Clean(VarLine(vs[i]))) == vs[i]
    {
      VarRoundTrip(vs[i]);
    }
    hide Clean, VarOf, VarLine, IsHeader;
  }

  /** The printed variables of a section are read back. */
  lemma SectionReadsBack(vs: seq<Variable>, rest: seq<string>)
    requires GoodVars(vs) && (vs != [] || rest != [])
    requires rest != [] ==> IsHeader(Clean(rest[0]))
    ensures ParseSection(VarLines(vs) + rest) == (vs, if |rest| == 1 then [] else rest)
  {
    GoodVarsAreLines(vs);
    SectionIsRead(VarLines(vs), rest);
    hide *;
  }

  /** Printed variables at the start of the file are read back. */
  lemma VariablesReadBack(vs: seq<Variable>, rest: seq<string>)
    requires GoodVars(vs) && (vs != [] || rest != [])
    ensures VarLines(vs) + rest != []
    ensures ParseFile(VarLines(vs) + rest) == AsItems(vs) + (if rest == [] then [] else ParseFile(rest))
  {
    GoodVarsAreLines(vs);
    VariablesAreRead(VarLines(vs), rest);
    hide *;
  }

  ghost predicate GoodHubs(hs: seq<Item>) {
    forall i :: 0 <= i < |hs| ==> GoodHub(hs[i])
  }

  /** What comes back of a list of sections: all of it, unless the last is empty. An empty last
      section is lost after another one, and gains an empty variable when it is the only one. */
  ghost function HubsBack(hs: seq<Item>): seq<Item>
    requires hs != [] && hs[|hs| - 1].Hub?
  {
    var last := hs[|hs| - 1];
    if last.vars != [] then hs
    else if |hs| > 1 then hs[..|hs| - 1]
    else [last.(vars := [Variable("", "", "")])]
  }

  /** The lines of a list of sections: the first header, its variables, the other sections. */
  lemma HubLinesFront(hs: seq<Item>)
    requires hs != [] && GoodHubs(hs)
    ensures AllLines(hs) != []
    ensures AllLines(hs)[0] == HeaderLine(hs[0]) && IsHeader(Clean(AllLines(hs)[0]))
    ensures AllLines(hs)[1..] == VarLines(hs[0].vars) + AllLines(hs[1..])
    ensures GoodHub(hs[0]) && GoodHubs(hs[1..])
    ensures |AllLines(hs)| == 1 <==> |hs| == 1 && hs[0].vars == []
  {
    assert GoodHub(hs[0]);
    HeaderRoundTrip(hs[0], []);
    hide HeaderLine, Clean, IsHeader, VarLine;
    assert AllLines(hs) == ([HeaderLine(hs[0])] + VarLines(hs[0].vars)) + AllLines(hs[1..]);
    Associate([HeaderLine(hs[0])], VarLines(hs[0].vars), AllLines(hs[1..]));
  }

  /** One section of the file, when its variables are followed by `rest`. */
  lemma HubReadsBack(lines: seq<string>, h: Item, vs: seq<Variable>, rest: seq<string>)
    requires lines != [] && GoodHub(h) && lines[0] == HeaderLine(h)
    requires ParseSection(lines[1..]) == (vs, rest)
    ensures |rest| < |lines|
    ensures ParseFile(lines) == [h.(vars := vs)] + (if rest == [] then [] else ParseFile(rest))
  {
    HeaderRoundTrip(h, vs);
    ParseSectionShortens(lines[1..]);
    hide Clean, IsHeader, HeaderOf, HeaderLine, ParseSection;
  }

  lemma {:induction false} HubsReadBack(hs: seq<Item>)
    requires hs != [] && GoodHubs(hs)
    ensures GoodHub(hs[|hs| - 1])
    ensures AllLines(hs) != [] && ParseFile(AllLines(hs)) == HubsBack(hs)
    decreases |hs|
  {
    var lines, h, t := AllLines(hs), hs[0], hs[1..];
    HubLinesFront(hs);
    assert hs == [h] + t && h.(vars := h.vars) == h;
    if t == [] {
      LastHubReadsBack(lines, h);
    } else {
      HubLinesFront(t);
      HubsReadBack(t);
      SectionReadsBack(h.vars, AllLines(t));
      HubReadsBack(lines, h, h.vars, if |AllLines(t)| == 1 then [] else AllLines(t));
      HubsBackFront(h, t);
      hide *;
    }
  }

  lemma LastHubReadsBack(lines: seq<string>, h: Item)
    requires GoodHub(h) && lines == [HeaderLine(h)] + VarLines(h.vars)
    ensures ParseFile(lines) == HubsBack([h])
  {
    EmptyLineIsEmptyVariable();
    assert lines[1..] == VarLines(h.vars) + [];
    if h.vars == [] {
      assert ParseSection([]) == ([VarOf("")], []);
      HubReadsBack(lines, h, [VarOf("")], []);
    } else {
      SectionReadsBack(h.vars, []);
      HubReadsBack(lines, h, h.vars, []);
      hide *;
      assert h.(vars := h.vars) == h;
    }
    hide *;
  }

  lemma HubsBackFront(h: Item, t: seq<Item>)
    requires h.Hub? && t != [] && t[|t| - 1].Hub?
    ensures HubsBack([h] + t) == if |t| == 1 && t[0].vars == [] then [h] else [h] + HubsBack(t)
  {
    var hs := [h] + t;
    assert hs[|hs| - 1] == t[|t| - 1];
    assert hs[..|hs| - 1] == [h] + t[..|t| - 1];
  }

  // ---------- the whole file ----------

  /** What write prints. */
  function PrintText(items: seq<Item>): string {
    Join(AllLines(Partition(items)))
  }

  lemma {:induction false} PartitionIsGood(items: seq<Item>)
    requires Good(items)
    ensures GoodVars(VarsOf(items)) && GoodHubs(HubsOf(items))
    ensures |VarsOf(items)| + |HubsOf(items)| == |items|
  {
    hide GoodVar, GoodHub;
    if items == [] {
    } else {
      PartitionIsGood(items[..|items| - 1]);
    }
  }

  lemma {:induction false} LinesHaveNoNewlines(items: seq<Item>)
    requires Good(items)
    ensures NoNewlines(AllLines(items))
    ensures items != [] ==> AllLines(items) != []
  {
    if items == [] {
    } else {
      AllLinesFront(items);
      ItemHasNoNewlines(items[0]);
      GoodItemsTail(items);
      LinesHaveNoNewlines(items[1..]);
      hide AllLines, LinesOf;
    }
  }

  lemma GoodItemsTail(items: seq<Item>)
    requires Good(items) && items != []
    ensures Good(items[1..]) && if items[0].Var? then GoodVar(items[0].v) else GoodHub(items[0])
  {
    hide GoodVar, GoodHub;
  }

  lemma ItemHasNoNewlines(item: Item)
    requires if item.Var? then GoodVar(item.v) else GoodHub(item)
    ensures NoNewlines(LinesOf(item)) && LinesOf(item) != []
  {
    match item
    case Var(v) => VarRoundTrip(v);
    case Hub(_, _, vars) =>
      HeaderRoundTrip(item, []);
      forall i | 0 <= i < |vars|
        ensures '\n' !in VarLine(vars[i])
      {
        VarRoundTrip(vars[i]);
      }
      hide VarLine, HeaderLine;
  }

  lemma PartitionStaysGood(items: seq<Item>)
    requires Good(items)
    ensures Good(Partition(items)) && |Partition(items)| == |items|
  {
    PartitionIsGood(items);
    hide GoodVar, GoodHub;
  }

  /** A file whose last section has no variables. */
  predicate EndsInEmptySection(items: seq<Item>) {
    var hs := HubsOf(items);
    hs != [] && hs[|hs| - 1].Hub? && hs[|hs| - 1].vars == []
  }

  /** What reading the printed text gives. */
  lemma PrintedTextReadsAs(items: seq<Item>)
    requires Good(items) && items != []
    ensures HubsOf(items) != [] ==> HubsOf(items)[|HubsOf(items)| - 1].Hub?
    ensures ParseFile(Split(PrintText(items)))
         == AsItems(VarsOf(items)) + (if HubsOf(items) == [] then [] else HubsBack(HubsOf(items)))
  {
    var vs, hs := VarsOf(items), HubsOf(items);
    PartitionIsGood(items);
    PartitionStaysGood(items);
    LinesHaveNoNewlines(Partition(items));
    SplitJoin(AllLines(Partition(items)));
    AllLinesAppend(AsItems(vs), hs);
    LinesOfVariables(vs);
    HubsAreHubs(items);
    if hs == [] {
      VariablesReadBack(vs, []);
    } else {
      HubsReadBack(hs);
      VariablesReadBack(vs, AllLines(hs));
    }
    hide *;
  }

  /** For well-formed entries reading back gives their stable partition exactly when there is an
      entry and the last section is not empty. */
  lemma GoodReadsBackExactly(items: seq<Item>)
    requires Good(items)
    ensures ParseFile(Split(PrintText(items))) == Partition(items)
       <==> items != [] && !EndsInEmptySection(items)
  {
    hide ParseFile, Split, PrintText, Good;
    if items == [] {
      EmptyFileReadsAs();
    } else {
      PrintedTextReadsAs(items);
      HubsAreHubs(items);
      var vs, hs := VarsOf(items), HubsOf(items);
      hide VarsOf, HubsOf;
      if hs != [] {
        var last := hs[|hs| - 1];
        assert HubsBack(hs) == hs <==> last.vars != [] by {
          assert |hs| == 1 ==> hs == [last];
        }
        SamePrefix(AsItems(vs), HubsBack(hs), hs);
      }
    }
  }

  /** No entries print as no text, which reads as one empty variable. */
  lemma EmptyFileReadsAs()
    ensures ParseFile(Split(PrintText([]))) == [Var(Variable("", "", ""))]
    ensures Partition([]) == []
  {
    EmptyLineIsEmptyVariable();
    assert Partition([]) == [];
    assert Split("") == [""];
    assert Clean("") == "";
    hide VarOf;
  }

  // ---------- every other list of entries ----------

  /** An entry that reading can give. */
  ghost predicate UncutItem(item: Item) {
    match item
    case Var(v) => Uncut(v)
    case Hub(name, description, vars) =>
      && OneLine(name) && OneLine(description) && ';' !in name && ']' !in name
      && forall i :: 0 <= i < |vars| ==> Uncut(vars[i])
  }

  ghost predicate UncutItems(items: seq<Item>) {
    forall i :: 0 <= i < |items| ==> UncutItem(items[i])
  }

  lemma {:induction false} SplitHasNoNewlines(text: string)
    ensures NoNewlines(Split(text))
    decreases |text|
  {
    var i := Find(text, '\n');
    if i == |text| {
      assert text[..i] == text;
    } else {
      SplitHasNoNewlines(text[i + 1..]);
    }
  }

  /** A section is read from a stretch of lines, and leaves lines without newlines. */
  lemma {:induction false} SectionIsUncut(lines: seq<string>)
    requires NoNewlines(lines)
    ensures var (vs, rest) := ParseSection(lines);
            NoNewlines(rest) && forall i :: 0 <= i < |vs| ==> Uncut(vs[i])
  {
    SectionStep(lines);
    EmptyIsClean();
    if lines == [] {
      ReadVariableIsUncut("");
    } else if !IsHeader(Clean(lines[0])) {
      ReadVariableIsUncut(lines[0]);
      if |lines| > 1 {
        SectionIsUncut(lines[1..]);
      }
    }
    hide Uncut, VarOf, Clean, IsHeader, ParseSection;
  }

  /** Whatever is read is uncut. */
  lemma {:induction false} FileIsUncut(lines: seq<string>)
    requires lines != [] && NoNewlines(lines)
    ensures UncutItems(ParseFile(lines))
    decreases |lines|
  {
    FileStep(lines);
    var tail := lines[1..];
    if IsHeader(Clean(lines[0])) {
      SectionIsUncut(tail);
      var (vs, rest) := ParseSection(tail);
      ReadHeaderIsUncut(lines[0], vs);
      hide Uncut, HeaderOf, Clean, IsHeader, ParseSection, ParseFile;
      if rest != [] {
        FileIsUncut(rest);
      }
    } else {
      ReadVariableIsUncut(lines[0]);
      hide Uncut, VarOf, Clean, IsHeader, ParseFile;
      if tail != [] {
        FileIsUncut(tail);
      }
    }
  }

  /** The variable without the contents that are not printed. */
  function Printed(v: Variable): (p: Variable)
    ensures VarLine(p) == VarLine(v) && (Uncut(v) ==> GoodVar(p))
  {
    if v.name == [] then v.(contents := []) else v
  }

  function PrintedVars(vs: seq<Variable>): (p: seq<Variable>)
    ensures |p| == |vs| && forall i :: 0 <= i < |vs| ==> p[i] == Printed(vs[i])
  {
    seq(|vs|, i requires 0 <= i < |vs| => Printed(vs[i]))
  }

  function PrintedItem(item: Item): (p: Item)
    ensures p.Var? <==> item.Var?
  {
    match item
    case Var(v) => Var(Printed(v))
    case Hub(_, _, vars) => item.(vars := PrintedVars(vars))
  }

  function PrintedItems(items: seq<Item>): (p: seq<Item>)
    ensures |p| == |items| && forall i :: 0 <= i < |items| ==> p[i] == PrintedItem(items[i])
  {
    seq(|items|, i requires 0 <= i < |items| => PrintedItem(items[i]))
  }

  lemma PrintedItemPrints(item: Item)
    ensures LinesOf(PrintedItem(item)) == LinesOf(item)
    ensures UncutItem(item) ==> if item.Var? then GoodVar(PrintedItem(item).v) else GoodHub(PrintedItem(item))
  {
    hide VarLine, Uncut, GoodVar, Printed;
    if item.Hub? {
      assert VarLines(PrintedItem(item).vars) == VarLines(item.vars);
    }
  }

  lemma {:induction false} PrintedItemsPrint(items: seq<Item>)
    ensures AllLines(PrintedItems(items)) == AllLines(items)
  {
    hide LinesOf, PrintedItem;
    if items == [] {
    } else {
      PrintedItemPrints(items[0]);
      PrintedItemsPrint(items[1..]);
      assert PrintedItems(items)[1..] == PrintedItems(items[1..]);
    }
  }

  /** Partition and Printed do not interfere. */
  lemma PartitionOfPrinted(items: seq<Item>)
    ensures Partition(PrintedItems(items)) == PrintedItems(Partition(items))
  {
    PartsOfPrinted(items);
    PrintedVariables(VarsOf(items));
    PrintedAppend(AsItems(VarsOf(items)), HubsOf(items));
    hide VarsOf, HubsOf, PrintedItems, PrintedVars, AsItems;
  }

  lemma PrintedVariables(vs: seq<Variable>)
    ensures AsItems(PrintedVars(vs)) == PrintedItems(AsItems(vs))
  {
    hide Printed;
  }

  lemma PrintedAppend(a: seq<Item>, b: seq<Item>)
    ensures PrintedItems(a + b) == PrintedItems(a) + PrintedItems(b)
  {
    hide PrintedItem;
  }

  lemma PrintedLast(items: seq<Item>)
    requires items != []
    ensures var n := |items| - 1; PrintedItems(items) == PrintedItems(items[..n]) + [PrintedItem(items[n])]
  {
    hide PrintedItem;
  }

  lemma {:induction false} PartsOfPrinted(items: seq<Item>)
    ensures VarsOf(PrintedItems(items)) == PrintedVars(VarsOf(items))
    ensures HubsOf(PrintedItems(items)) == PrintedItems(HubsOf(items))
  {
    if items == [] {
    } else {
      var n := |items| - 1;
      var front, last := items[..n], items[n];
      PartsOfPrinted(front);
      PrintedLast(items);
      assert items == front + [last];
      PartsGrow(front, last);
      PartsGrow(PrintedItems(front), PrintedItem(last));
      hide VarsOf, HubsOf;
      if last.Var? {
        PrintedVarsLast(VarsOf(front), last.v);
        assert PrintedItem(last).v == Printed(last.v);
        assert HubsOf(front) + [] == HubsOf(front);
      } else {
        PrintedAppend(HubsOf(front), [last]);
        PrintedOne(last);
        assert VarsOf(front) + [] == VarsOf(front);
      }
      hide PrintedItems, PrintedVars, PrintedItem, Printed;
    }
  }

  lemma PrintedVarsLast(vs: seq<Variable>, v: Variable)
    ensures PrintedVars(vs + [v]) == PrintedVars(vs) + [Printed(v)]
  {
    hide Printed;
  }

  lemma PrintedOne(item: Item)
    ensures PrintedItems([item]) == [PrintedItem(item)]
  {
    hide PrintedItem;
  }

  lemma PrintedItemsAreGood(items: seq<Item>)
    requires UncutItems(items)
    ensures Good(PrintedItems(items))
  {
    forall i | 0 <= i < |items|
      ensures var p := PrintedItem(items[i]); if p.Var? then GoodVar(p.v) else GoodHub(p)
    {
      PrintedItemPrints(items[i]);
    }
    hide PrintedItem, UncutItem, GoodVar, GoodHub;
  }

  lemma PrintedTextIsTheSame(items: seq<Item>)
    ensures PrintText(PrintedItems(items)) == PrintText(items)
  {
    PartitionOfPrinted(items);
    PrintedItemsPrint(Partition(items));
    hide Partition, PrintedItems, AllLines, Join;
  }

  lemma GoodVarsAreGoodItems(vs: seq<Variable>)
    requires GoodVars(vs)
    ensures Good(AsItems(vs))
  {
    hide GoodVar;
  }

  lemma GoodHubsAreGoodItems(hs: seq<Item>)
    requires GoodHubs(hs)
    ensures Good(hs)
  {
  }

  lemma GoodAppend(a: seq<Item>, b: seq<Item>)
    requires Good(a) && Good(b)
    ensures Good(a + b)
  {
    hide GoodVar, GoodHub;
  }

  lemma HubsBackAreGood(hs: seq<Item>)
    requires hs != [] && hs[|hs| - 1].Hub? && GoodHubs(hs)
    ensures GoodHubs(HubsBack(hs))
  {
    assert GoodHub(hs[|hs| - 1]);
  }

  /** What is read of the text of well-formed entries is well formed. */
  lemma GoodReadsAsGood(items: seq<Item>)
    requires Good(items) && items != []
    ensures Good(ParseFile(Split(PrintText(items))))
  {
    PrintedTextReadsAs(items);
    PartitionIsGood(items);
    HubsAreHubs(items);
    var vs, hs := VarsOf(items), HubsOf(items);
    GoodVarsAreGoodItems(vs);
    if hs != [] {
      HubsBackAreGood(hs);
      GoodHubsAreGoodItems(HubsBack(hs));
      hide *;
      GoodAppend(AsItems(vs), HubsBack(hs));
    } else {
      hide *;
      assert AsItems(vs) + [] == AsItems(vs);
    }
  }

  lemma UncutPermutes(p: seq<Item>, items: seq<Item>)
    requires multiset(p) == multiset(items) && UncutItems(p)
    ensures UncutItems(items)
  {
    hide UncutItem;
    forall i | 0 <= i < |items|
      ensures UncutItem(items[i])
    {
      assert items[i] in multiset(items);
      assert items[i] in p;
    }
  }

  /** When a list's partition is read back, the partition is well formed: what is read is uncut,
      and contents that are not printed are not read. */
  lemma ReadBackIsGood(items: seq<Item>)
    requires items != [] && ParseFile(Split(PrintText(items))) == Partition(items)
    ensures Good(Partition(items))
  {
    var printed := PrintedItems(items);
    hide *;
    SplitHasNoNewlines(PrintText(items));
    FileIsUncut(Split(PrintText(items)));
    PartitionPermutes(items);
    UncutPermutes(Partition(items), items);
    PrintedItemsAreGood(items);
    PrintedTextIsTheSame(items);
    GoodReadsAsGood(printed);
  }

  lemma GoodPermutes(p: seq<Item>, items: seq<Item>)
    requires multiset(p) == multiset(items) && Good(p)
    ensures Good(items)
  {
    hide GoodVar, GoodHub;
    forall i | 0 <= i < |items|
      ensures if items[i].Var? then GoodVar(items[i].v) else GoodHub(items[i])
    {
      assert items[i] in multiset(items);
      assert items[i] in p;
    }
  }

  /** Main result, for every list of entries: reading back what write prints gives the stable
      partition of the entries, with every name, content and description, exactly when the entries
      are well formed, there is one, and the last section is not empty. */
  lemma ReadsBackExactly(items: seq<Item>)
    ensures ParseFile(Split(PrintText(items))) == Partition(items)
       <==> Good(items) && items != [] && !EndsInEmptySection(items)
  {
    if Good(items) {
      GoodReadsBackExactly(items);
    } else if ParseFile(Split(PrintText(items))) == Partition(items) {
      hide *;
      ReadBackIsGood(items);
      PartitionPermutes(items);
      GoodPermutes(Partition(items), items);
    }
  }

  lemma SplitFront(text: string, i: nat)
    requires i == Find(text, '\n')
    ensures i == |text| ==> Split(text) == [text]
    ensures i < |text| ==> Split(text) == [text[..i]] + Split(text[i + 1..])
  {
    hide Find;
  }

  lemma LineAt(text: string, pos: nat, i: nat)
    requires pos <= i <= |text| && Find(text[pos..], '\n') == i - pos
    ensures Split(text[pos..]) == if i == |text| then [text[pos..i]] else [text[pos..i]] + Split(text[i + 1..])
  {
    var tail := text[pos..];
    SplitFront(tail, i - pos);
    hide Split, Find;
    assert tail[..i - pos] == text[pos..i];
    if i == |text| {
      assert tail == text[pos..i];
    } else {
      assert tail[i - pos + 1..] == text[i + 1..];
    }
  }

  /** The scan of getline: the next newline, or the end. */
  method EndOfLine(text: string, pos: nat) returns (i: nat)
    requires pos <= |text|
    ensures pos <= i <= |text| && Find(text[pos..], '\n') == i - pos
  {
    i := pos;
    while i < |text| && text[i] != '\n'
      invariant pos <= i <= |text|
      invariant Find(text[pos..], '\n') == i - pos + Find(text[i..], '\n')
    {
      assert text[i..][1..] == text[i + 1..];
      i := i + 1;
    }
  }

  // ---------- the objects ----------

  /** The input stream: getline fails, leaving the line empty, once the end has been met. */
  class Stream {
    const text: string
    var pos: nat
    var eof: bool

    constructor (text: string)
      ensures this.text == text && pos == 0 && !eof
    {
      this.text := text;
      pos, eof := 0, false;
    }

    ghost predicate Valid()
      reads this
    {
      pos <= |text|
    }

    ghost function Remaining(): seq<string>
      requires Valid()
      reads this
    {
      if eof then [] else Split(text[pos..])
    }

    method GetLine() returns (buf: string)
      requires Valid()
      modifies this
      ensures Valid()
      ensures old(eof) ==> buf == "" && eof && pos == old(pos)
      ensures !old(eof) ==> old(Remaining()) == [buf] + Remaining()
    {
      hide Split, Find;
      if eof {
        return "";
      }
      var i := EndOfLine(text, pos);
      buf := text[pos..i];
      LineAt(text, pos, i);
      if i == |text| {
        eof := true;
        assert [buf] + [] == [buf];
      } else {
        pos := i + 1;
      }
    }
  }

  /** Hub::read. `msgEof` stands for the exception that ends the file. */
  method ReadSection(input: Stream) returns (vars: seq<Variable>, msgEof: bool)
    requires input.Valid()
    modifies input
    ensures input.Valid()
    ensures vars == ParseSection(old(input.Remaining())).0
    ensures msgEof <==> ParseSection(old(input.Remaining())).1 == []
    ensures !msgEof ==> input.Remaining() == ParseSection(old(input.Remaining())).1
  {
    hide ParseSection, Split, Clean, VarOf;
    ghost var all := input.Remaining();
    vars := [];
    assert vars + ParseSection(all).0 == ParseSection(all).0;
    var last := false;
    while !last
      invariant input.Valid()
      invariant !last ==>
                  ParseSection(all) == (vars + ParseSection(input.Remaining()).0, ParseSection(input.Remaining()).1)
      invariant last ==> ParseSection(all) == (vars, [])
      decreases if last then 0 else 1, |input.Remaining()|
    {
      var lineStart := input.pos;
      ghost var rest := input.Remaining();
      var buf := input.GetLine();
      last := input.eof;
      buf := CleanLine(buf);
      SectionStep(rest);
      if buf != [] && buf[0] == '[' {
        input.pos := lineStart;
        input.eof := false;
        assert vars + [] == vars;
        break;
      }
      ghost var more := ParseSection(input.Remaining()).0;
      Associate(vars, [VarOf(buf)], more);
      vars := vars + [VarOf(buf)];
    }
    msgEof := last;
  }

  /** What reading appends; a stream already at its end still gives one empty line. */
  function ReadFrom(lines: seq<string>): seq<Item> {
    if lines == [] then [Var(VarOf(""))] else ParseFile(lines)
  }

  // ---------- joining lines ----------

  lemma {:induction false} JoinAppend(a: seq<string>, b: seq<string>)
    requires a != [] && b != []
    ensures Join(a + b) == Join(a) + "\n" + Join(b)
  {
    assert (a + b)[0] == a[0] && (a + b)[1..] == a[1..] + b;
    if |a| == 1 {
      assert a[1..] + b == b;
    } else {
      JoinAppend(a[1..], b);
    }
  }

  lemma JoinOne(line: string)
    ensures Join([line]) == line
  {
  }

  lemma AllLinesGrow(items: seq<Item>, item: Item)
    ensures LinesOf(item) != []
    ensures AllLines(items + [item]) == AllLines(items) + LinesOf(item)
    ensures items != [] ==> AllLines(items) != []
  {
    AllLinesAppend(items, [item]);
    hide VarLine, HeaderLine;
    assert AllLines([item]) == LinesOf(item) + [];
  }

  lemma OneVariableLine(v: Variable)
    ensures Join(LinesOf(Var(v))) == VarLine(v)
  {
  }

  lemma NoLines()
    ensures AllLines([]) == [] && Join([]) == ""
  {
  }

  /** Var::write */
  method WriteVar(v: Variable) returns (text: string)
    ensures text == VarLine(v)
  {
    text := "";
    if |v.name| != 0 {
      text := text + v.name + "=";
      if |v.contents| != 0 {
        text := text + v.contents;
      }
    }
    if |v.description| != 0 {
      text := text + ";" + v.description;
    }
  }

  /** Hub::write: the header, then every variable on a new line. */
  method WriteHub(h: Item) returns (text: string)
    requires h.Hub?
    ensures text == Join(LinesOf(h))
  {
    text := "[" + h.name + "]";
    if |h.description| != 0 {
      text := text + ";" + h.description;
    }
    ghost var header := [HeaderLine(h)];
    assert text == HeaderLine(h);
    JoinOne(text);
    assert header + VarLines(h.vars[..0]) == header;
    for p := 0 to |h.vars|
      invariant text == Join(header + VarLines(h.vars[..p]))
    {
      ghost var lines := header + VarLines(h.vars[..p]);
      text := text + "\n";
      var line := WriteVar(h.vars[p]);
      text := text + line;
      JoinAppend(lines, [line]);
      JoinOne(line);
      assert VarLines(h.vars[..p + 1]) == VarLines(h.vars[..p]) + [line] by {
        hide VarLine;
      }
      hide VarLine, HeaderLine, Join;
      assert header + VarLines(h.vars[..p + 1]) == lines + [line];
    }
    assert h.vars[..|h.vars|] == h.vars;
  }

  // ---------- the partition ----------

  /** The partition keeps every entry, and the order among variables and among sections; so
      partitioning again changes nothing, and a second write prints the same text. */
  lemma PartitionIsStable(items: seq<Item>)
    ensures multiset(Partition(items)) == multiset(items)
    ensures VarsOf(Partition(items)) == VarsOf(items) && HubsOf(Partition(items)) == HubsOf(items)
    ensures Partition(Partition(items)) == Partition(items)
    ensures PrintText(Partition(items)) == PrintText(items)
  {
    HubsAreHubs(items);
    PartsOfPartition(VarsOf(items), HubsOf(items));
    PartitionPermutes(items);
    hide VarsOf, HubsOf, AllLines, Join;
  }

  /** One step of the shift: places above s hold what was one place below them. */
  lemma ShiftUp<T>(before: seq<T>, now: seq<T>, s: nat, p: nat)
    requires 0 < s <= p < |before| == |now|
    requires now[..s] == before[..s] && now[s + 1..] == before[s..p] + before[p + 1..]
    ensures var next := now[s := now[s - 1]];
            next[..s - 1] == before[..s - 1] && next[s..] == before[s - 1..p] + before[p + 1..]
  {
    var next := now[s := now[s - 1]];
    assert now[s - 1] == now[..s][s - 1] == before[s - 1];
    assert next[s..] == [before[s - 1]] + now[s + 1..];
    assert before[s - 1..p] == [before[s - 1]] + before[s..p];
    assert next[..s - 1] == now[..s][..s - 1];
  }

  lemma PutBack<T>(before: seq<T>, now: seq<T>, i: nat, item: T, p: nat)
    requires i <= p < |before| == |now|
    requires now[..i] == before[..i] && now[i + 1..] == before[i..p] + before[p + 1..]
    ensures now[i := item] == before[..i] + [item] + before[i..p] + before[p + 1..]
  {
    assert now[i := item] == now[..i] + [item] + now[i + 1..];
  }

  // ---------- the file ----------

  class IniFile {
    var olist: seq<Item>

    constructor ()
      ensures olist == []
    {
      olist := [];
    }

    /** cINIFile::read */
    method Read(input: Stream)
      requires input.Valid()
      modifies this, input
      ensures olist == old(olist) + ReadFrom(old(input.Remaining()))
    {
      hide ParseSection, ParseFile, Split, VarOf, Clean, HeaderOf;
      ghost var all := input.Remaining();
      var last := false;
      assert Clean("") == "" by {
        EmptyIsClean();
      }
      while !last
        invariant input.Valid()
        invariant !last ==> old(olist) + ReadFrom(all) == olist + ReadFrom(input.Remaining())
        invariant !last ==> input.Remaining() == all || input.Remaining() != []
        invariant last ==> olist == old(olist) + ReadFrom(all)
        decreases if last then 0 else 1, |input.Remaining()|
      {
        ghost var rest, before := input.Remaining(), olist;
        var buf := input.GetLine();
        last := input.eof;
        buf := CleanLine(buf);
        if rest != [] {
          FileStep(rest);
        }
        var item;
        if buf != [] && buf[0] == '[' {
          assert rest[1..] == input.Remaining();
          var vars, msgEof := ReadSection(input);
          item := HeaderOf(buf, vars);
          last := last || msgEof;
        } else {
          item := Var(VarOf(buf));
        }
        olist := olist + [item];
        Associate(before, [item], ReadFrom(input.Remaining()));
      }
    }

    /** Moves entry p to place i, shifting those between, one place at a time. */
    method MoveTo(i: nat, p: nat)
      requires i <= p < |olist|
      modifies this
      ensures olist == old(olist[..i] + [olist[p]] + olist[i..p] + olist[p + 1..])
    {
      ghost var before := olist;
      var item := olist[p];
      var s := p;
      while s != i
        invariant i <= s <= p && |olist| == |before|
        invariant olist[..s] == before[..s]
        invariant olist[s + 1..] == before[s..p] + before[p + 1..]
        decreases s
      {
        ShiftUp(before, olist, s, p);
        olist := olist[s := olist[s - 1]];
        s := s - 1;
      }
      PutBack(before, olist, i, item, p);
      olist := olist[i := item];
    }

    /** The loops of Hub::_write_contents that move variables in front of sections, in place. */
    method MoveVariablesFirst()
      modifies this
      ensures olist == Partition(old(olist))
    {
      hide VarsOf, Partition;
      ghost var was := olist;
      var i := 0;
      PartitionOfNothing();
      assert was[..0] == [];
      while i < |olist| && olist[i].Var?
        invariant i <= |olist| && olist == was
        invariant olist[..i] == Partition(was[..i]) && |VarsOf(was[..i])| == i
      {
        PartitionGrows(was[..i], was[i]);
        assert was[..i + 1] == was[..i] + [was[i]];
        i := i + 1;
      }
      var p := i;
      while p < |olist|
        invariant i <= p <= |olist| == |was|
        invariant olist[p..] == was[p..]
        invariant olist[..p] == Partition(was[..p]) && |VarsOf(was[..p])| == i
      {
        PartitionGrows(was[..p], was[p]);
        assert was[..p + 1] == was[..p] + [was[p]];
        assert olist[p] == olist[p..][0] == was[p];
        ghost var before := olist;
        if olist[p].Var? {
          MoveTo(i, p);
          assert olist[..p + 1] == before[..i] + [was[p]] + before[i..p];
          assert before[..p][..i] == before[..i] && before[..p][i..] == before[i..p];
          i := i + 1;
        } else {
          assert olist[..p + 1] == olist[..p] + [was[p]];
        }
        assert olist[p + 1..] == before[p + 1..] == before[p..][1..] == was[p..][1..] == was[p + 1..];
        p := p + 1;
      }
      assert was[..|was|] == was && olist[..p] == olist;
    }

    /** cINIFile::write */
    method Write() returns (text: string)
      modifies this
      ensures text == PrintText(old(olist))
      ensures olist == Partition(old(olist))
    {
      hide Partition, AllLines, LinesOf, Join, VarLine, HeaderLine;
      MoveVariablesFirst();
      text := "";
      var first := true;
      NoLines();
      assert olist[..0] == [];
      for p := 0 to |olist|
        invariant olist == Partition(old(olist))
        invariant first <==> p == 0
        invariant text == Join(AllLines(olist[..p]))
        invariant p > 0 ==> AllLines(olist[..p]) != []
      {
        ghost var done := olist[..p];
        var line;
        match olist[p] {
          case Var(v) =>
            line := WriteVar(v);
            OneVariableLine(v);
          case Hub(_, _, _) =>
            line := WriteHub(olist[p]);
        }
        AllLinesGrow(done, olist[p]);
        assert olist[..p + 1] == done + [olist[p]];
        if !first {
          text := text + "\n";
          JoinAppend(AllLines(done), LinesOf(olist[p]));
        } else {
          assert done == [] && AllLines(done) + LinesOf(olist[p]) == LinesOf(olist[p]);
        }
        text := text + line;
        first := false;
      }
      assert olist[..|olist|] == olist;
    }
  }

}
