/**
 * The compositor IPC event reader of src/socket.cpp: the handler table, the
 * eight payload splitters (each giving the line it prints), the split of a
 * message at the first ">>", and the recv loop over a char[1024] buffer.
 */
module Socket {
  import opened Basics
  import opened CppString
  import opened CNumbers

  datatype Handler =
    | Workspace | WorkspaceV2 | FocusedMon | ActiveWindow
    | ActiveWindowV2 | Fullscreen | OpenWindow | CloseWindow

  /** The eventHandlers table: built once, never changed afterwards. */
  const EventHandlers: map<string, Handler> := map[
    "workspace" := Workspace,
    "workspacev2" := WorkspaceV2,
    "focusedmon" := FocusedMon,
    "activewindow" := ActiveWindow,
    "activewindowv2" := ActiveWindowV2,
    "fullscreen" := Fullscreen,
    "openwindow" := OpenWindow,
    "closewindow" := CloseWindow
  ]

  /** The table holds exactly the eight event names, each bound to its own handler. */
  lemma {:induction false} EventHandlersTable()
    ensures EventHandlers.Keys == {"workspace", "workspacev2", "focusedmon", "activewindow",
                                   "activewindowv2", "fullscreen", "openwindow", "closewindow"}
    ensures forall a, b :: a in EventHandlers && b in EventHandlers && a != b ==> EventHandlers[a] != EventHandlers[b]
  {
  }

  lemma OccursAtOneChar(s: string, c: char, i: int)
    ensures OccursAt(s, [c], i) <==> 0 <= i < |s| && s[i] == c
  {
    if 0 <= i < |s| {
      assert s[i..i + 1] == [s[i]];
    }
  }

  /** find(c) for a single character: npos exactly when c is absent, otherwise the first index of c. */
  lemma FindChar(s: Str, c: char, from: nat)
    ensures var r := Find(s, [c], from);
            (r == NPOS <==> forall i :: from <= i < |s| ==> s[i] != c)
            && (r != NPOS ==> from <= r < |s| && s[r] == c && forall i :: from <= i < r ==> s[i] != c)
  {
    var r := Find(s, [c], from);
    FindFirst(s, [c], from);
    forall i | from <= i < |s| && (r == NPOS || i < r)
      ensures s[i] != c
    {
      OccursAtOneChar(s, c, i);
    }
    if r != NPOS {
      OccursAtOneChar(s, c, r);
    }
  }

  /**
   * The payload split of handleWorkspaceV2, handleFocusedMon and
   * handleActiveWindow: substr(0, pos) and substr(pos + 1) around the first
   * comma. With no comma, find gives npos, npos + 1 wraps to 0, and both
   * fields are the whole payload.
   */
  function CommaFields(data: Str): (r: (Str, Str))
    ensures ',' !in data ==> r == (data, data)
    ensures ',' in data ==> ',' !in r.0 && data == r.0 + "," + r.1
  {
    FindChar(data, ',', 0);
    var pos := Find(data, ",", 0);
    assert ',' !in data ==> pos == NPOS && SizeAdd(pos, 1) == 0;
    assert ',' in data ==> pos < |data| && data[pos] == ',' && SizeAdd(pos, 1) == pos + 1;
    var first := Substr(data, 0, pos).value;
    var second := Substr(data, SizeAdd(pos, 1), NPOS).value;
    assert ',' !in data ==> first == data && second == data;
    (first, second)
  }

  /** Joining two fields with a comma, the first free of commas, splits back into them. */
  lemma CommaFieldsOfJoin(a: string, b: string)
    requires ',' !in a && |a + "," + b| < NPOS
    ensures CommaFields(a + "," + b) == (a, b)
  {
    var data: Str := a + "," + b;
    assert data[|a|] == ',' && data[0..|a|] == a;
    FindCommaAfter(data, 0, a);
    var r := CommaFields(data);
    assert r.0 == data[..|a|] == a;
    assert r.1 == data[|a| + 1..] == b;
  }

  /** The four fields handleOpenWindow prints. */
  datatype WindowFields = WindowFields(address: Str, workspace: Str, windowClass: Str, title: Str)

  /** substr(find_last_of(',') + 1): everything after the last comma, or the whole payload. */
  function AfterLastComma(data: Str): Str
  {
    var last := FindLastOf(data, ',');
    FindLast(data, ',');
    assert last == NPOS ==> SizeAdd(last, 1) == 0;
    assert last != NPOS ==> SizeAdd(last, 1) == last + 1;
    Substr(data, SizeAdd(last, 1), NPOS).value
  }

  /**
   * The title is a comma-free tail of the payload: the whole payload when it
   * has no comma, otherwise everything after a comma.
   */
  lemma AfterLastCommaTitle(data: Str)
    ensures var title := AfterLastComma(data);
            |title| <= |data| && title == data[|data| - |title|..] && ',' !in title
            && (',' !in data ==> title == data)
            && (',' in data ==> data[|data| - |title| - 1] == ',')
  {
    var last := FindLastOf(data, ',');
    FindLast(data, ',');
    if last != NPOS {
      assert data[last] in data;
      assert SizeAdd(last, 1) == last + 1;
      assert data[last + 1..|data|] == data[last + 1..];
      assert AfterLastComma(data) == data[last + 1..];
    } else {
      assert SizeAdd(last, 1) == 0 && data[0..|data|] == data;
    }
  }

  /** handleOpenWindow's address: substr(0, tokens), tokens being the first comma (or npos). */
  function AddressOf(data: Str): Str
  {
    Substr(data, 0, Find(data, ",", 0)).value
  }

  /**
   * handleOpenWindow's workspace: substr(tokens + 1, find(',', tokens + 1)).
   * The second argument is a length, but the code passes the next comma's index.
   */
  function WorkspaceOf(data: Str): Str
  {
    var tokens := Find(data, ",", 0);
    PastFind(data, ",", 0);
    Substr(data, SizeAdd(tokens, 1), Find(data, ",", SizeAdd(tokens, 1))).value
  }

  /** handleOpenWindow's class: the same pattern, one comma further on. */
  function ClassOf(data: Str): Str
  {
    var tokens := Find(data, ",", 0);
    PastFind(data, ",", 0);
    var second := Find(data, ",", SizeAdd(tokens, 1));
    PastFind(data, ",", SizeAdd(tokens, 1));
    Substr(data, SizeAdd(second, 1), Find(data, ",", SizeAdd(second, 1))).value
  }

  /** handleOpenWindow's four fields. */
  function OpenWindowFields(data: Str): WindowFields
  {
    WindowFields(AddressOf(data), WorkspaceOf(data), ClassOf(data), AfterLastComma(data))
  }

  /**
   * Without a comma every find gives npos, npos + 1 wraps to 0, and all four
   * fields are the whole payload.
   */
  lemma OpenWindowNoComma(data: Str)
    requires ',' !in data
    ensures OpenWindowFields(data) == WindowFields(data, data, data, data)
  {
    FindChar(data, ',', 0);
    assert SizeAdd(NPOS, 1) == 0;
    AfterLastCommaTitle(data);
  }

  /** With a first comma at p1 and no comma after it, the workspace field is the rest of the payload. */
  lemma WorkspaceFieldToEnd(data: Str, p1: nat)
    requires Find(data, ",", 0) == p1 < |data| && Find(data, ",", p1 + 1) == NPOS
    ensures WorkspaceOf(data) == data[p1 + 1..]
  {
    PastFind(data, ",", 0);
  }

  /**
   * With a single comma, at p1, the second find gives npos, npos + 1 wraps
   * to 0, and the class field is substr(0, p1): the address again.
   */
  lemma ClassFieldOneComma(data: Str, p1: nat)
    requires Find(data, ",", 0) == p1 < |data| && Find(data, ",", p1 + 1) == NPOS
    ensures ClassOf(data) == data[..p1]
  {
    PastFind(data, ",", 0);
    assert SizeAdd(p1, 1) == p1 + 1;
    assert SizeAdd(NPOS, 1) == 0;
  }

  /** With exactly two commas, at p1 and p2, the class field is everything after the second. */
  lemma ClassFieldToEnd(data: Str, p1: nat, p2: nat)
    requires Find(data, ",", 0) == p1 && Find(data, ",", p1 + 1) == p2 && p1 < p2 < |data|
    requires Find(data, ",", p2 + 1) == NPOS
    ensures ClassOf(data) == data[p2 + 1..]
  {
    PastFind(data, ",", 0);
    PastFind(data, ",", p1 + 1);
    assert SizeAdd(p1, 1) == p1 + 1 && SizeAdd(p2, 1) == p2 + 1;
  }

  /** A comma that ends a comma-free field starting at from is what find(',', from) returns. */
  lemma FindCommaAfter(data: Str, from: nat, field: string)
    requires from + |field| < |data| && data[from..from + |field|] == field
    requires ',' !in field && data[from + |field|] == ','
    ensures Find(data, ",", from) == from + |field|
  {
    FindChar(data, ',', from);
    forall i | from <= i < from + |field|
      ensures data[i] != ','
    {
      assert data[i] == field[i - from];
    }
  }

  /** The first k characters of substr(pos, count), when the string and count allow k. */
  lemma SubstrPrefix(s: Str, pos: nat, count: nat, k: nat)
    requires pos + k <= |s| && k <= count
    ensures Substr(s, pos, count).Success? && Substr(s, pos, count).value[..k] == s[pos..pos + k]
  {
  }

  /** A comma-free field at the front of the payload, ended by a comma, is the address. */
  lemma AddressField(data: Str, p1: nat)
    requires Find(data, ",", 0) == p1 < |data|
    ensures AddressOf(data) == data[..p1]
  {
    assert AddressOf(data) == Substr(data, 0, p1).value;
  }

  /** find(',', from) stops at the first comma at or after from. */
  lemma FindCommaAt(data: Str, from: nat, at: nat)
    requires from <= at < |data| && data[at] == ','
    requires forall i :: from <= i < at ==> data[i] != ','
    ensures Find(data, ",", from) == at
  {
    FindChar(data, ',', from);
  }

  /** The first three finds of handleOpenWindow, on a payload whose first three commas are at p1, p2 and p3. */
  lemma CommaPositions(data: Str, p1: nat, p2: nat, p3: nat)
    requires p1 < p2 < p3 < |data| && data[p1] == ',' && data[p2] == ',' && data[p3] == ','
    requires forall i :: 0 <= i < p3 && i != p1 && i != p2 ==> data[i] != ','
    ensures Find(data, ",", 0) == p1 && Find(data, ",", p1 + 1) == p2 && Find(data, ",", p2 + 1) == p3
  {
    FindCommaAt(data, 0, p1);
    FindCommaAt(data, p1 + 1, p2);
    FindCommaAt(data, p2 + 1, p3);
  }

  /**
   * The workspace field starts after the first comma and takes p2 characters,
   * p2 being the second comma's index: it runs on past that comma.
   */
  lemma WorkspaceField(data: Str, p1: nat, p2: nat)
    requires Find(data, ",", 0) == p1 && Find(data, ",", p1 + 1) == p2 && p1 < p2 < |data|
    ensures WorkspaceOf(data) == data[p1 + 1..p1 + 1 + Min(p2, |data| - p1 - 1)]
    ensures data[p1 + 1..p2 + 1] <= WorkspaceOf(data)
  {
    WorkspaceSubstr(data, p1, p2);
    SubstrPrefix(data, p1 + 1, p2, p2 - p1);
  }

  /** The workspace field is substr(p1 + 1, p2). */
  lemma WorkspaceSubstr(data: Str, p1: nat, p2: nat)
    requires Find(data, ",", 0) == p1 && Find(data, ",", p1 + 1) == p2 && p1 < p2 < |data|
    ensures WorkspaceOf(data) == Substr(data, p1 + 1, p2).value
  {
    PastFind(data, ",", 0);
    assert SizeAdd(p1, 1) == p1 + 1;
  }

  /**
   * The class field starts after the second comma and takes p3 characters,
   * p3 being the third comma's index: it runs on past that comma.
   */
  lemma ClassField(data: Str, p1: nat, p2: nat, p3: nat)
    requires Find(data, ",", 0) == p1 && Find(data, ",", p1 + 1) == p2 && Find(data, ",", p2 + 1) == p3
    requires p1 < p2 < p3 < |data|
    ensures ClassOf(data) == data[p2 + 1..p2 + 1 + Min(p3, |data| - p2 - 1)]
    ensures data[p2 + 1..p3 + 1] <= ClassOf(data)
  {
    ClassSubstr(data, p1, p2, p3);
    SubstrPrefix(data, p2 + 1, p3, p3 - p2);
  }

  /** The class field is substr(p2 + 1, p3). */
  lemma ClassSubstr(data: Str, p1: nat, p2: nat, p3: nat)
    requires Find(data, ",", 0) == p1 && Find(data, ",", p1 + 1) == p2 && Find(data, ",", p2 + 1) == p3
    requires p1 < p2 < p3 < |data|
    ensures ClassOf(data) == Substr(data, p2 + 1, p3).value
  {
    PastFind(data, ",", 0);
    PastFind(data, ",", p1 + 1);
    assert SizeAdd(p1, 1) == p1 + 1 && SizeAdd(p2, 1) == p2 + 1;
  }

  /** After a last comma comes a comma-free title. */
  lemma TitleField(data: Str, p: nat, title: string)
    requires p < |data| && data[p] == ',' && data[p + 1..] == title && ',' !in title
    ensures AfterLastComma(data) == title
  {
    AfterLastCommaTitle(data);
    assert data[p] in data;
  }

  /** In "a,w,c,t" with comma-free a, w and c, the first three commas are the separators. */
  lemma JoinCommas(a: string, w: string, c: string, t: string)
    requires ',' !in a && ',' !in w && ',' !in c
    ensures var data := a + "," + w + "," + c + "," + t;
            var p1 := |a|;
            var p2 := p1 + 1 + |w|;
            var p3 := p2 + 1 + |c|;
            forall i :: 0 <= i < p3 && i != p1 && i != p2 ==> data[i] != ','
  {
    var data := a + "," + w + "," + c + "," + t;
    var p1 := |a|;
    var p2 := p1 + 1 + |w|;
    forall i | 0 <= i < p2 + 1 + |c| && i != p1 && i != p2
      ensures data[i] != ','
    {
      if i < p1 {
        assert data[i] == a[i];
      } else if i < p2 {
        assert data[i] == w[i - p1 - 1];
      } else {
        assert data[i] == c[i - p2 - 1];
      }
    }
  }

  /** In "a,w,c,t" with comma-free a, w and c, the first three finds stop at the separators. */
  lemma JoinFinds(a: string, w: string, c: string, t: string)
    requires ',' !in a && ',' !in w && ',' !in c
    requires |a + "," + w + "," + c + "," + t| < NPOS
    ensures var data := a + "," + w + "," + c + "," + t;
            var p1 := |a|;
            var p2 := p1 + 1 + |w|;
            var p3 := p2 + 1 + |c|;
            Find(data, ",", 0) == p1 && Find(data, ",", p1 + 1) == p2 && Find(data, ",", p2 + 1) == p3
  {
    var data := a + "," + w + "," + c + "," + t;
    JoinLayout(a, w, c, t);
    JoinCommas(a, w, c, t);
    CommaPositions(data, |a|, |a| + 1 + |w|, |a| + 1 + |w| + 1 + |c|);
  }

  /** Where the fields and commas of "a,w,c,t" sit. */
  lemma JoinLayout(a: string, w: string, c: string, t: string)
    ensures var data := a + "," + w + "," + c + "," + t;
            var p1 := |a|;
            var p2 := p1 + 1 + |w|;
            var p3 := p2 + 1 + |c|;
            |data| == p3 + 1 + |t|
            && data[p1] == ',' && data[p2] == ',' && data[p3] == ','
            && data[..p1] == a && data[p1 + 1..p2 + 1] == w + "," && data[p2 + 1..p3 + 1] == c + ","
            && data[p3 + 1..] == t
  {
  }

  /** The four fields, on a payload whose first three commas are at p1, p2 and p3 and whose last comma is at p3. */
  lemma FieldsAt(data: Str, p1: nat, p2: nat, p3: nat)
    requires Find(data, ",", 0) == p1 && Find(data, ",", p1 + 1) == p2 && Find(data, ",", p2 + 1) == p3
    requires p1 < p2 < p3 < |data| && data[p3] == ',' && ',' !in data[p3 + 1..]
    ensures var f := OpenWindowFields(data);
            f.address == data[..p1] && f.title == data[p3 + 1..]
            && f.workspace == data[p1 + 1..p1 + 1 + Min(p2, |data| - p1 - 1)]
            && f.windowClass == data[p2 + 1..p2 + 1 + Min(p3, |data| - p2 - 1)]
            && data[p1 + 1..p2 + 1] <= f.workspace && data[p2 + 1..p3 + 1] <= f.windowClass
  {
    AddressField(data, p1);
    WorkspaceField(data, p1, p2);
    ClassField(data, p1, p2, p3);
    TitleField(data, p3, data[p3 + 1..]);
  }

  /**
   * On a well-formed "address,workspace,class,title" payload the address and
   * title come out right, but the workspace and class fields both run past
   * the comma that should end them.
   */
  lemma OpenWindowFieldsOverrun(a: string, w: string, c: string, t: string)
    requires ',' !in a && ',' !in w && ',' !in c && ',' !in t
    requires |a + "," + w + "," + c + "," + t| < NPOS
    ensures var f := OpenWindowFields(a + "," + w + "," + c + "," + t);
            f.address == a && f.title == t && w + "," <= f.workspace && c + "," <= f.windowClass
  {
    var data: Str := a + "," + w + "," + c + "," + t;
    JoinLayout(a, w, c, t);
    JoinFinds(a, w, c, t);
    FieldsOfLayout(data, |a|, |a| + 1 + |w|, |a| + 1 + |w| + 1 + |c|, a, w, c, t);
  }

  /** FieldsAt, with the text between the commas named. */
  lemma FieldsOfLayout(data: Str, p1: nat, p2: nat, p3: nat, a: string, w: string, c: string, t: string)
    requires Find(data, ",", 0) == p1 && Find(data, ",", p1 + 1) == p2 && Find(data, ",", p2 + 1) == p3
    requires p1 < p2 < p3 < |data| && data[p3] == ',' && ',' !in t
    requires data[..p1] == a && data[p1 + 1..p2 + 1] == w + "," && data[p2 + 1..p3 + 1] == c + "," && data[p3 + 1..] == t
    ensures var f := OpenWindowFields(data);
            f.address == a && f.title == t && w + "," <= f.workspace && c + "," <= f.windowClass
  {
    FieldsAt(data, p1, p2, p3);
  }

  /** handleFullscreen: std::stoi of the payload, then the line for status 1 or any other status. */
  function FullscreenLine(data: Str): (r: Result<string, Exception>)
    ensures r.Failure? <==> Stoi(data).Failure?
    ensures r == Success("Window entered fullscreen") <==> Stoi(data) == Success(1)
    ensures r == Success("Window exited fullscreen") <==> Stoi(data).Success? && Stoi(data).value != 1
  {
    match Stoi(data)
    case Failure(e) => Failure(e)
    case Success(status) =>
      if status == 1 then Success("Window entered fullscreen") else Success("Window exited fullscreen")
  }

  /** A fullscreen payload holding the decimal text of an int reports "entered" exactly for 1. */
  lemma FullscreenStatus(n: int, rest: string)
    requires InIntRange(n) && (rest == [] || !IsDigit(rest[0])) && |FormatInt(n) + rest| < NPOS
    ensures FullscreenLine(FormatInt(n) + rest) ==
            Success(if n == 1 then "Window entered fullscreen" else "Window exited fullscreen")
  {
    StoiFormatted(n, rest);
  }

  /** The line a handler prints for a payload, or the exception it throws. */
  function RunHandler(h: Handler, data: Str): (r: Result<string, Exception>)
    ensures r.Failure? ==> h == Fullscreen
  {
    match h
    case Workspace => Success("Workspace changed: " + data)
    case WorkspaceV2 =>
      var (id, name) := CommaFields(data);
      Success("Workspace v2 changed: " + id + ", " + name)
    case FocusedMon =>
      var (monitor, workspace) := CommaFields(data);
      Success("Focused monitor: " + monitor + " Workspace: " + workspace)
    case ActiveWindow =>
      var (windowClass, windowTitle) := CommaFields(data);
      Success("Active window: " + windowClass + " " + windowTitle)
    case ActiveWindowV2 => Success("Active window v2: " + data)
    case Fullscreen => FullscreenLine(data)
    case OpenWindow =>
      var f := OpenWindowFields(data);
      Success("Open window: " + f.address + " " + f.workspace + " " + f.windowClass + " " + f.title)
    case CloseWindow => Success("Close window: " + data)
  }

  /**
   * processMessage's split: eventType = substr(0, pos), data = substr(pos + 2)
   * around the first ">>". With no ">>", npos + 2 wraps to 1: the event type
   * is the whole message and the data drops its first character; on an empty
   * message substr(1) throws.
   */
  function SplitMessage(message: Str): (r: Result<(Str, Str), Exception>)
    ensures r.Failure? <==> message == []
    ensures r.Failure? ==> r.error == OutOfRange
    ensures r.Success? && Find(message, ">>", 0) != NPOS ==>
              message == r.value.0 + ">>" + r.value.1
              && forall i :: 0 <= i < |r.value.0| ==> !OccursAt(message, ">>", i)
    ensures r.Success? && Find(message, ">>", 0) == NPOS ==> r.value == (message, message[1..])
  {
    var pos := Find(message, ">>", 0);
    FindFirst(message, ">>", 0);
    var eventType := Substr(message, 0, pos).value;
    assert pos == NPOS ==> SizeAdd(pos, 2) == 1 && eventType == message;
    assert pos != NPOS ==> SizeAdd(pos, 2) == pos + 2 && message[pos..pos + 2] == ">>";
    match Substr(message, SizeAdd(pos, 2), NPOS)
    case Failure(e) => Failure(e)
    case Success(data) =>
      assert pos == NPOS ==> data == message[1..];
      Success((eventType, data))
  }

  /** The frame a compositor sends: the event name, ">>", the payload. */
  function Encode(name: string, payload: string): string
  {
    name + ">>" + payload
  }

  /** Splitting undoes Encode whenever the event name has no '>'. */
  lemma SplitEncoded(name: string, payload: string)
    requires '>' !in name && |Encode(name, payload)| < NPOS
    ensures SplitMessage(Encode(name, payload)) == Success((name, payload))
  {
    var m: Str := Encode(name, payload);
    assert OccursAt(m, ">>", |name|) by { assert m[|name|..|name| + 2] == ">>"; }
    forall i | 0 <= i < |name|
      ensures !OccursAt(m, ">>", i)
    {
      assert m[i] == name[i];
    }
    var r := SplitMessage(m);
    FindFirst(m, ">>", 0);
    assert Find(m, ">>", 0) == |name|;
    assert r.value.0 == m[..|name|] == name;
    assert r.value.1 == m[|name| + 2..] == payload;
  }

  /** What processMessage did with one message. */
  datatype Dispatch =
    | Handled(handler: Handler, data: Str, line: string)
    | Unknown(eventType: Str, line: string)

  /**
   * processMessage: split, look the event type up, run exactly that handler
   * once with the data, or print the unknown-event line.
   */
  function ProcessMessage(message: Str): (r: Result<Dispatch, Exception>)
    ensures message == [] ==> r == Failure(OutOfRange)
  {
    match SplitMessage(message)
    case Failure(e) => Failure(e)
    case Success((eventType, data)) =>
      if eventType in EventHandlers then
        var h := EventHandlers[eventType];
        match RunHandler(h, data)
        case Failure(e) => Failure(e)
        case Success(line) => Success(Handled(h, data, line))
      else
        Success(Unknown(eventType, "Unknown event type: " + eventType))
  }

  /**
   * An encoded frame whose name has no '>' reaches exactly the handler the
   * table binds to that name, with exactly the payload, and gives that
   * handler's line or exception; any other name is reported as unknown and
   * runs nothing.
   */
  lemma DispatchEncoded(name: string, payload: string)
    requires '>' !in name && |Encode(name, payload)| < NPOS
    ensures var r := ProcessMessage(Encode(name, payload));
            if name in EventHandlers then
              var out := RunHandler(EventHandlers[name], payload);
              (r.Success? ==> r.value == Handled(EventHandlers[name], payload, r.value.line))
              && (r.Failure? ==> EventHandlers[name] == Fullscreen)
              && (r.Failure? <==> out.Failure?)
              && (out.Success? ==> r == Success(Handled(EventHandlers[name], payload, out.value)))
              && (out.Failure? ==> r == Failure(out.error))
            else
              r == Success(Unknown(name, "Unknown event type: " + name))
  {
    SplitEncoded(name, payload);
  }

  /** One outcome of recv on the event socket. */
  datatype Recv =
    | Received(bytes: string)  // a positive byte count: the bytes written into the buffer
    | PeerClosed               // recv returned 0
    | RecvFailed               // recv returned -1

  /** recv(sock, buffer, sizeof(buffer) - 1, 0) writes between 1 and 1023 bytes when it succeeds. */
  predicate ValidRecvs(recvs: seq<Recv>)
  {
    forall k :: 0 <= k < |recvs| ==> (recvs[k].Received? ==> 0 < |recvs[k].bytes| <= 1023)
  }

  /** A line on standard output or standard error. */
  datatype Line = Out(text: string) | Err(text: string)

  datatype LoopEnd =
    | ConnectionClosed        // "Connection closed"
    | ReceiveError            // "Error receiving data"
    | Uncaught(e: Exception)  // an exception left processMessage: the program terminates
    | AwaitingData            // the given outcomes ran out while the loop still waits in recv

  /** The lines printed, how the loop ended and how many recv outcomes it used. */
  datatype Trace = Trace(lines: seq<Line>, end: LoopEnd, consumed: nat)

  /** The message processMessage sees: the received bytes up to the first NUL. */
  function ChunkMessage(bytes: string): (m: Str)
    requires |bytes| <= 1023
  {
    CString(bytes)
  }

  /**
   * The recv loop of readFromSocket, one outcome at a time, each chunk
   * handed to process. The model's loop is ReadLoop(recvs, ProcessMessage);
   * the lemmas below hold whatever process does with a chunk.
   */
  function ReadLoop(recvs: seq<Recv>, process: Str -> Result<Dispatch, Exception>): (t: Trace)
    requires ValidRecvs(recvs)
    ensures t.consumed <= |recvs|
    ensures t.end == AwaitingData ==> t.consumed == |recvs|
    ensures t.end != AwaitingData ==> t.consumed >= 1
    ensures |t.lines| == if t.end.Uncaught? then t.consumed - 1 else t.consumed
  {
    if recvs == [] then Trace([], AwaitingData, 0)
    else
      match recvs[0]
      case PeerClosed => Trace([Err("Connection closed")], ConnectionClosed, 1)
      case RecvFailed => Trace([Err("Error receiving data")], ReceiveError, 1)
      case Received(bytes) =>
        match process(ChunkMessage(bytes))
        case Failure(e) => Trace([], Uncaught(e), 1)
        case Success(d) =>
          var rest := ReadLoop(recvs[1..], process);
          Trace([Out(d.line)] + rest.lines, rest.end, rest.consumed + 1)
  }

  /**
   * Chunks are processed in order, one printed line each; the first 0 or
   * negative recv result ends the loop with its message.
   */
  lemma {:induction false} ReadLoopStopsAtFirstNonPositive(recvs: seq<Recv>, process: Str -> Result<Dispatch, Exception>, k: nat)
    requires ValidRecvs(recvs) && k < |recvs| && !recvs[k].Received?
    requires forall j :: 0 <= j < k ==> recvs[j].Received? && process(ChunkMessage(recvs[j].bytes)).Success?
    ensures var t := ReadLoop(recvs, process);
            t.consumed == k + 1
            && t.end == (if recvs[k].PeerClosed? then ConnectionClosed else ReceiveError)
            && |t.lines| == k + 1
            && (forall j :: 0 <= j < k ==> t.lines[j] == Out(process(ChunkMessage(recvs[j].bytes)).value.line))
            && t.lines[k] == Err(if recvs[k].PeerClosed? then "Connection closed" else "Error receiving data")
  {
    if k > 0 {
      ReadLoopStopsAtFirstNonPositive(recvs[1..], process, k - 1);
    }
  }

  /**
   * Chunks are processed in order, one printed line each, up to the first
   * chunk whose processing throws: that exception ends the loop and prints
   * nothing.
   */
  lemma {:induction false} ReadLoopStopsAtFirstThrow(recvs: seq<Recv>, process: Str -> Result<Dispatch, Exception>, k: nat)
    requires ValidRecvs(recvs) && k < |recvs| && recvs[k].Received?
    requires process(ChunkMessage(recvs[k].bytes)).Failure?
    requires forall j :: 0 <= j < k ==> recvs[j].Received? && process(ChunkMessage(recvs[j].bytes)).Success?
    ensures var t := ReadLoop(recvs, process);
            t.consumed == k + 1
            && t.end == Uncaught(process(ChunkMessage(recvs[k].bytes)).error)
            && |t.lines| == k
            && (forall j :: 0 <= j < k ==> t.lines[j] == Out(process(ChunkMessage(recvs[j].bytes)).value.line))
  {
    if k > 0 {
      ReadLoopStopsAtFirstThrow(recvs[1..], process, k - 1);
    }
  }

  /** A chunk that starts with a NUL is the empty message: substr(1) throws and the loop ends uncaught. */
  lemma NulChunkUncaught(recvs: seq<Recv>)
    requires ValidRecvs(recvs) && |recvs| > 0 && recvs[0].Received? && recvs[0].bytes[0] == '\0'
    ensures ReadLoop(recvs, ProcessMessage) == Trace([], Uncaught(OutOfRange), 1)
  {
    assert NulIndex(recvs[0].bytes) == 0;
  }

  /** Nothing after the first 0 or negative recv result is read: there is no retry. */
  lemma {:induction false} ReadLoopIgnoresRest(recvs: seq<Recv>, process: Str -> Result<Dispatch, Exception>, k: nat)
    requires ValidRecvs(recvs) && k < |recvs| && !recvs[k].Received?
    requires forall j :: 0 <= j < k ==> recvs[j].Received? && process(ChunkMessage(recvs[j].bytes)).Success?
    ensures ReadLoop(recvs, process) == ReadLoop(recvs[..k + 1], process)
  {
    if k > 0 {
      assert recvs[1..][..k] == recvs[1..k + 1] == recvs[..k + 1][1..];
      ReadLoopIgnoresRest(recvs[1..], process, k - 1);
    }
  }

  /**
   * Two frames in two separate reads, then a close: each name's handler runs
   * with its payload, in arrival order, and the close ends the loop without
   * an error report.
   */
  lemma TwoFramesThenClose(n1: string, p1: string, n2: string, p2: string)
    requires '>' !in n1 && '>' !in n2 && n1 in EventHandlers && n2 in EventHandlers
    requires '\0' !in Encode(n1, p1) && '\0' !in Encode(n2, p2)
    requires 0 < |Encode(n1, p1)| <= 1023 && 0 < |Encode(n2, p2)| <= 1023
    requires RunHandler(EventHandlers[n1], p1).Success? && RunHandler(EventHandlers[n2], p2).Success?
    ensures ReadLoop([Received(Encode(n1, p1)), Received(Encode(n2, p2)), PeerClosed], ProcessMessage) ==
            Trace([Out(RunHandler(EventHandlers[n1], p1).value), Out(RunHandler(EventHandlers[n2], p2).value),
                   Err("Connection closed")], ConnectionClosed, 3)
  {
    var m1, m2 := Encode(n1, p1), Encode(n2, p2);
    var recvs := [Received(m1), Received(m2), PeerClosed];
    CStringWithoutNul(m1);
    CStringWithoutNul(m2);
    SplitEncoded(n1, p1);
    SplitEncoded(n2, p2);
    assert recvs[1..] == [Received(m2), PeerClosed];
    assert recvs[1..][1..] == [PeerClosed];
    assert ReadLoop([PeerClosed], ProcessMessage) == Trace([Err("Connection closed")], ConnectionClosed, 1);
    assert ReadLoop(recvs[1..], ProcessMessage).lines == [Out(RunHandler(EventHandlers[n2], p2).value), Err("Connection closed")];
  }

  /** A chunk processed without an exception prints its line, and the loop goes on with the next outcome. */
  lemma ReadLoopContinues(recvs: seq<Recv>, process: Str -> Result<Dispatch, Exception>, i: nat, d: Dispatch)
    requires ValidRecvs(recvs) && i < |recvs| && recvs[i].Received?
    requires process(ChunkMessage(recvs[i].bytes)) == Success(d)
    ensures ValidRecvs(recvs[i + 1..])
    ensures var rest := ReadLoop(recvs[i + 1..], process);
            ReadLoop(recvs[i..], process) == Trace([Out(d.line)] + rest.lines, rest.end, rest.consumed + 1)
  {
    assert recvs[i..][0] == recvs[i] && recvs[i..][1..] == recvs[i + 1..];
  }

  /**
   * One successful recv into buffer: the data goes to the front of the
   * buffer, the byte after it becomes NUL, and the std::string built from
   * the buffer is returned.
   */
  method ReceiveInto(buffer: array<char>, bytes: string) returns (message: Str)
    requires buffer.Length == 1024 && 0 < |bytes| <= 1023
    modifies buffer
    ensures buffer[..|bytes|] == bytes && buffer[|bytes|] == '\0'
    ensures buffer[|bytes| + 1..] == old(buffer[|bytes| + 1..])
    ensures message == ChunkMessage(bytes)
  {
    var n := |bytes|;
    var k := 0;
    while k < n
      invariant 0 <= k <= n
      invariant buffer[..k] == bytes[..k]
      invariant forall j :: k <= j < buffer.Length ==> buffer[j] == old(buffer[j])
    {
      buffer[k] := bytes[k];
      k := k + 1;
    }
    buffer[n] := '\0';
    assert buffer[n + 1..] == old(buffer[n + 1..]);
    var len := 0;
    while buffer[len] != '\0'
      invariant 0 <= len <= n
      invariant forall j :: 0 <= j < len ==> buffer[j] != '\0'
      decreases n - len
    {
      len := len + 1;
    }
    assert buffer[..n] == bytes;
    assert NulIndex(bytes) == len;
    message := buffer[..len];
  }

  /** The buffer after a recv of bytes: the bytes at its front, a NUL after them, the rest as before. */
  ghost predicate ChunkWritten(after: seq<char>, before: seq<char>, bytes: string)
  {
    |after| == |before| > |bytes|
    && after[..|bytes|] == bytes && after[|bytes|] == '\0' && after[|bytes| + 1..] == before[|bytes| + 1..]
  }

  /** One received chunk: copied into the buffer, then handed to processMessage. */
  method HandleChunk(buffer: array<char>, bytes: string) returns (outcome: Result<Dispatch, Exception>)
    requires buffer.Length == 1024 && 0 < |bytes| <= 1023
    modifies buffer
    ensures ChunkWritten(buffer[..], old(buffer[..]), bytes)
    ensures outcome == ProcessMessage(ChunkMessage(bytes))
  {
    var message := ReceiveInto(buffer, bytes);
    outcome := ProcessMessage(message);
  }

  /**
   * readFromSocket's loop: each positive recv fills the char[1024] buffer,
   * the byte after the data is set to NUL and the C string in the buffer is
   * processed; 0 or a negative result ends the loop.
   */
  method ReadFromSocket(recvs: seq<Recv>) returns (lines: seq<Line>, end: LoopEnd, consumed: nat)
    requires ValidRecvs(recvs)
    ensures Trace(lines, end, consumed) == ReadLoop(recvs, ProcessMessage)
  {
    var buffer := new char[1024];
    lines, end := [], AwaitingData;
    var i := 0;
    while i < |recvs|
      invariant 0 <= i <= |recvs|
      invariant var rest := ReadLoop(recvs[i..], ProcessMessage);
                ReadLoop(recvs, ProcessMessage) == Trace(lines + rest.lines, rest.end, i + rest.consumed)
    {
      match recvs[i]
      case PeerClosed =>
        assert recvs[i..][0] == recvs[i];
        lines, end, consumed := lines + [Err("Connection closed")], ConnectionClosed, i + 1;
        return;
      case RecvFailed =>
        assert recvs[i..][0] == recvs[i];
        lines, end, consumed := lines + [Err("Error receiving data")], ReceiveError, i + 1;
        return;
      case Received(bytes) =>
        var outcome := HandleChunk(buffer, bytes);
        if outcome.Failure? {
          assert recvs[i..][0] == recvs[i];
          end, consumed := Uncaught(outcome.error), i + 1;
          return;
        }
        ReadLoopContinues(recvs, ProcessMessage, i, outcome.value);
        ghost var rest := ReadLoop(recvs[i + 1..], ProcessMessage);
        assert lines + [Out(outcome.value.line)] + rest.lines == lines + ([Out(outcome.value.line)] + rest.lines);
        lines := lines + [Out(outcome.value.line)];
        i := i + 1;
    }
    consumed := i;
  }
}
