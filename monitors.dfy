/**
 * The monitor module of src/lua/monitors.cpp: the "%dx%d" parse of a
 * resolution or position with its defaults, the SMonitorRule fields that
 * add_monitor and disable_monitor set, and the null-skipping list of
 * monitor names. The compositor's monitor lookup is an input (found or
 * not); applying a rule is recorded as the rule handed over.
 */
module Monitors {
  import opened Basics
  import opened CppString
  import opened CNumbers

  /** A Vector2D built from two ints. */
  datatype Vec2 = Vec2(x: int, y: int)

  /**
   * sscanf(text.c_str(), "%dx%d", &x, &y) with x and y holding the defaults
   * beforehand (section 7.21.6.2 of C11): each %d reads as strtol base 10,
   * the directive 'x' must match the next character exactly, and the scan
   * stops at the first directive that fails, keeping what it already stored.
   * None: a value read does not fit an int, which is undefined behaviour.
   */
  function ScanDims(text: string, defaults: Vec2): (r: Option<Vec2>)
  {
    ScanFields(CString(text), defaults)
  }

  /** The "%dx%d" scan over the characters of the C string s. */
  function ScanFields(s: string, defaults: Vec2): Option<Vec2>
  {
    match ScanDecimal(s, 0)
    case None => Some(defaults)
    case Some(first) =>
      if !InIntRange(first.value) then None
      else if first.end < |s| && s[first.end] == 'x' then
        match ScanDecimal(s, first.end + 1)
        case None => Some(Vec2(first.value, defaults.y))
        case Some(second) => if InIntRange(second.value) then Some(Vec2(first.value, second.value)) else None
      else Some(Vec2(first.value, defaults.y))
  }

  /** The text "WxH" of two ints. */
  function Dims(w: int, h: int): string
  {
    FormatInt(w) + "x" + FormatInt(h)
  }

  lemma NoNulInFormat(n: int)
    ensures '\0' !in FormatInt(n)
  {
    var f := FormatInt(n);
    var ds := FormatNat(if n < 0 then -n else n);
    assert f == (if n < 0 then "-" else "") + ds;
    forall k | 0 <= k < |f|
      ensures f[k] != '\0'
    {
      if n >= 0 || k > 0 {
        assert IsDigit(ds[if n < 0 then k - 1 else k]);
      }
    }
  }

  /** Both conversions succeed, with an 'x' between them: both fields are stored. */
  lemma ScanDimsParts(text: string, defaults: Vec2, first: Conversion, second: Conversion)
    requires '\0' !in text
    requires ScanDecimal(text, 0) == Some(first) && InIntRange(first.value)
    requires first.end < |text| && text[first.end] == 'x'
    requires ScanDecimal(text, first.end + 1) == Some(second) && InIntRange(second.value)
    ensures ScanDims(text, defaults) == Some(Vec2(first.value, second.value))
  {
    CStringWithoutNul(text);
    assert ScanDims(text, defaults) == ScanFields(text, defaults);
  }

  /** Where a, the 'x', b and the first character of rest sit in a + "x" + b + rest. */
  lemma JoinDims(a: string, b: string, rest: string)
    ensures var s := a + "x" + b + rest;
            s[0..|a|] == a && s[|a|] == 'x' && s[|a| + 1..|a| + 1 + |b|] == b
            && (rest != [] ==> s[|a| + 1 + |b|] == rest[0])
  {
  }

  /**
   * Both numbers of a well-formed "WxH", signed or not, are read, whatever
   * the defaults; anything after H that is not a digit is ignored.
   */
  lemma ScanDimsFormatted(w: int, h: int, rest: string, defaults: Vec2)
    requires InIntRange(w) && InIntRange(h)
    requires '\0' !in rest && (rest == [] || !IsDigit(rest[0]))
    ensures ScanDims(Dims(w, h) + rest, defaults) == Some(Vec2(w, h))
  {
    var fw, fh := FormatInt(w), FormatInt(h);
    var s := fw + "x" + fh + rest;
    NoNulInFormat(w);
    NoNulInFormat(h);
    assert '\0' !in s;
    JoinDims(fw, fh, rest);
    var e := |fw| + 1 + |fh|;
    ScanFormattedAt(s, 0, w, |fw|);
    ScanFormattedAt(s, |fw| + 1, h, e);
    ScanDimsParts(s, defaults, Conversion(w, |fw|), Conversion(h, e));
  }

  /**
   * When the first %d converts nothing, as in "x1080", "abc 1" or "-x5",
   * sscanf stops there and both fields keep their defaults.
   */
  lemma ScanDimsNoNumber(text: string, defaults: Vec2)
    requires ScanDecimal(CString(text), 0).None?
    ensures ScanDims(text, defaults) == Some(defaults)
  {
    assert ScanDims(text, defaults) == ScanFields(CString(text), defaults);
  }

  /** Text with no digit at all starts with no number. */
  lemma DigitFreeNoNumber(text: string)
    requires forall k :: 0 <= k < |text| ==> !IsDigit(text[k])
    ensures ScanDecimal(CString(text), 0).None?
  {
    var s := CString(text);
    assert forall k :: 0 <= k < |s| ==> s[k] == text[k];
    NoDigitsNoScan(s, 0);
  }

  /**
   * When the width is not followed by 'x' and a number, only the width is
   * stored: the height keeps its default. That is, the rest does not go on
   * with the width's digits, and either it does not start with 'x' (as in
   * "1920 x1080") or no number converts after that 'x' (as in "1920xabc").
   */
  lemma ScanDimsWidthOnly(w: int, rest: string, defaults: Vec2)
    requires InIntRange(w) && '\0' !in rest
    requires rest == [] || !IsDigit(rest[0])
    requires rest != [] && rest[0] == 'x' ==> ScanDecimal(FormatInt(w) + rest, |FormatInt(w)| + 1).None?
    ensures ScanDims(FormatInt(w) + rest, defaults) == Some(Vec2(w, defaults.y))
  {
    var fw := FormatInt(w);
    var s := fw + rest;
    NoNulJoin(w, rest);
    ScanFormattedFront(w, rest);
    assert |fw| < |s| ==> rest != [];
    ScanDimsFirstOnly(s, defaults, Conversion(w, |fw|));
  }

  /** The decimal text of an int followed by NUL-free text has no NUL. */
  lemma NoNulJoin(w: int, rest: string)
    requires '\0' !in rest
    ensures '\0' !in FormatInt(w) + rest
  {
    NoNulInFormat(w);
  }

  /** strtol at the front of the decimal text of w, followed by a non-digit, reads w; the 'x' test then looks at rest. */
  lemma ScanFormattedFront(w: int, rest: string)
    requires rest == [] || !IsDigit(rest[0])
    ensures var s := FormatInt(w) + rest;
            ScanDecimal(s, 0) == Some(Conversion(w, |FormatInt(w)|))
            && (|FormatInt(w)| < |s| ==> s[|FormatInt(w)|] == rest[0])
  {
    ScanFormatted([], w, rest);
    assert [] + FormatInt(w) + rest == FormatInt(w) + rest;
  }

  /** The first conversion succeeds but no 'x' and number follow it: only the first field is stored. */
  lemma ScanDimsFirstOnly(text: string, defaults: Vec2, first: Conversion)
    requires '\0' !in text
    requires ScanDecimal(text, 0) == Some(first) && InIntRange(first.value)
    requires first.end < |text| && text[first.end] == 'x' ==> ScanDecimal(text, first.end + 1).None?
    ensures ScanDims(text, defaults) == Some(Vec2(first.value, defaults.y))
  {
    CStringWithoutNul(text);
    assert ScanDims(text, defaults) == ScanFields(text, defaults);
  }

  /**
   * strtol converts nothing where no digit follows the leading white space
   * and the optional sign.
   */
  lemma NoDigitsNoScan(s: string, i: nat)
    requires i <= |s|
    requires var j := SkipSpace(s, i);
             j < |s| ==> !IsDigit(s[j]) && (s[j] == '+' || s[j] == '-' ==> j + 1 == |s| || !IsDigit(s[j + 1]))
    ensures ScanDecimal(s, i).None?
  {
    var j := SkipSpace(s, i);
    var k := if j < |s| && (s[j] == '+' || s[j] == '-') then j + 1 else j;
    assert k == |s| || !IsDigit(s[k]);
  }

  /** Resolution and position start at 1920x1080 and 0x0. */
  const DEFAULT_RESOLUTION := Vec2(1920, 1080)
  const DEFAULT_POSITION := Vec2(0, 0)

  /**
   * The SMonitorRule fields the plug-in sets. None: the field keeps its
   * SMonitorRule default, which is not part of this model.
   */
  datatype MonitorRule = MonitorRule(name: string, resolution: Option<Vec2>, offset: Option<Vec2>, disabled: bool)

  /** What a call did: the rule handed to applyMonitorRule, or the "not found" error it logged instead. */
  datatype Outcome = Applied(rule: MonitorRule) | NotFound(error: string)

  /** The notifications a call sent, in order, and its outcome. */
  datatype Call = Call(notices: seq<string>, outcome: Outcome)

  /**
   * add_monitor: the rule named name, with the parsed resolution and
   * position and disabled = false, is applied when the compositor finds the
   * monitor. None: a parse ran into undefined behaviour.
   */
  function AddMonitor(name: string, resolution: string, position: string, found: bool): (r: Option<Call>)
    ensures r.Some? <==> ScanDims(resolution, DEFAULT_RESOLUTION).Some? && ScanDims(position, DEFAULT_POSITION).Some?
    ensures r.Some? ==> ["Applying monitor with Hyprland API"] <= r.value.notices
    ensures r.Some? ==> (r.value.outcome.Applied? <==> found)
    ensures r.Some? && found ==>
              var rule := r.value.outcome.rule;
              rule.name == name && !rule.disabled
              && rule.resolution == ScanDims(resolution, DEFAULT_RESOLUTION)
              && rule.offset == ScanDims(position, DEFAULT_POSITION)
              && r.value.notices == ["Applying monitor with Hyprland API", "Monitor rule applied"]
    ensures r.Some? && !found ==>
              r.value == Call(["Applying monitor with Hyprland API"], NotFound("Monitor not found: " + name))
  {
    var first := ["Applying monitor with Hyprland API"];
    match ScanDims(resolution, DEFAULT_RESOLUTION)
    case None => None
    case Some(res) =>
      match ScanDims(position, DEFAULT_POSITION)
      case None => None
      case Some(pos) =>
        var rule := MonitorRule(name, Some(res), Some(pos), false);
        if !found then Some(Call(first, NotFound("Monitor not found: " + name)))
        else Some(Call(first + ["Monitor rule applied"], Applied(rule)))
  }

  /** A call with well-formed "WxH" texts applies exactly those numbers. */
  lemma AddMonitorFormatted(name: string, w: int, h: int, x: int, y: int)
    requires InIntRange(w) && InIntRange(h) && InIntRange(x) && InIntRange(y)
    ensures AddMonitor(name, Dims(w, h), Dims(x, y), true)
            == Some(Call(["Applying monitor with Hyprland API", "Monitor rule applied"],
                         Applied(MonitorRule(name, Some(Vec2(w, h)), Some(Vec2(x, y)), false))))
  {
    ScanDimsFormatted(w, h, [], DEFAULT_RESOLUTION);
    ScanDimsFormatted(x, y, [], DEFAULT_POSITION);
    assert Dims(w, h) + [] == Dims(w, h) && Dims(x, y) + [] == Dims(x, y);
  }

  /** Texts that do not start with a number apply the 1920x1080 resolution at 0x0. */
  lemma AddMonitorDefaults(name: string, resolution: string, position: string)
    requires ScanDecimal(CString(resolution), 0).None?
    requires ScanDecimal(CString(position), 0).None?
    ensures AddMonitor(name, resolution, position, true)
            == Some(Call(["Applying monitor with Hyprland API", "Monitor rule applied"],
                         Applied(MonitorRule(name, Some(Vec2(1920, 1080)), Some(Vec2(0, 0)), false))))
  {
    ScanDimsNoNumber(resolution, DEFAULT_RESOLUTION);
    ScanDimsNoNumber(position, DEFAULT_POSITION);
  }

  /**
   * disable_monitor: the rule named name with disabled = true and no
   * resolution or offset is applied when the compositor finds the monitor.
   */
  function DisableMonitor(name: string, found: bool): (r: Call)
    ensures ["Disabling monitor"] <= r.notices
    ensures r.outcome.Applied? <==> found
    ensures found ==> r == Call(["Disabling monitor", "Monitor disabled"], Applied(MonitorRule(name, None, None, true)))
    ensures !found ==> r == Call(["Disabling monitor"], NotFound("Monitor not found for disabling: " + name))
  {
    var rule := MonitorRule(name, None, None, true);
    if !found then Call(["Disabling monitor"], NotFound("Monitor not found for disabling: " + name))
    else Call(["Disabling monitor", "Monitor disabled"], Applied(rule))
  }

  /** An applied rule is disabled exactly when it comes from disable_monitor, which sets no geometry. */
  lemma RulesKeepTheirKind(name: string, resolution: string, position: string)
    ensures var a := AddMonitor(name, resolution, position, true);
            a.Some? ==> !a.value.outcome.rule.disabled && a.value.outcome.rule.resolution.Some?
    ensures var d := DisableMonitor(name, true).outcome.rule;
            d.disabled && d.resolution.None? && d.offset.None? && d.name == name
  {
  }

  /** The names of the non-null entries of the compositor's monitor list, in list order. */
  function NonNull(monitors: seq<Option<string>>): (names: seq<string>)
    ensures |names| <= |monitors|
  {
    if monitors == [] then []
    else
      var last := monitors[|monitors| - 1];
      NonNull(monitors[..|monitors| - 1]) + (if last.Some? then [last.value] else [])
  }

  /** list_monitors: one emplace_back per non-null monitor, in order. */
  method ListMonitors(monitors: seq<Option<string>>) returns (names: seq<string>)
    ensures names == NonNull(monitors)
  {
    names := [];
    for i := 0 to |monitors|
      invariant names == NonNull(monitors[..i])
    {
      assert monitors[..i + 1][..i] == monitors[..i];
      if monitors[i].None? {
        continue;
      }
      names := names + [monitors[i].value];
    }
    assert monitors[..|monitors|] == monitors;
  }

  /** Listing a list made of two parts lists the first part's names, then the second's. */
  lemma {:induction false} NonNullAppend(a: seq<Option<string>>, b: seq<Option<string>>)
    ensures NonNull(a + b) == NonNull(a) + NonNull(b)
    decreases |b|
  {
    if b != [] {
      var b' := b[..|b| - 1];
      assert (a + b)[..|a + b| - 1] == a + b';
      NonNullAppend(a, b');
    } else {
      assert a + b == a;
    }
  }

  /** A name is listed exactly when some non-null entry carries it. */
  lemma {:induction false} NonNullNames(monitors: seq<Option<string>>, name: string)
    ensures name in NonNull(monitors) <==> Some(name) in monitors
  {
    if monitors != [] {
      var init := monitors[..|monitors| - 1];
      NonNullNames(init, name);
      assert monitors == init + [monitors[|monitors| - 1]];
    }
  }

  /** A null entry is skipped: listing is as if it were not there. */
  lemma NullSkipped(a: seq<Option<string>>, b: seq<Option<string>>)
    ensures NonNull(a + [None] + b) == NonNull(a + b)
  {
    NonNullAppend(a + [None], b);
    NonNullAppend(a, b);
    assert (a + [None])[..|a|] == a;
  }

  /** Without nulls, every monitor is listed, in order. */
  lemma {:induction false} NoNullsAllListed(monitors: seq<Option<string>>)
    requires forall k :: 0 <= k < |monitors| ==> monitors[k].Some?
    ensures NonNull(monitors) == seq(|monitors|, k requires 0 <= k < |monitors| => monitors[k].value)
  {
    if monitors != [] {
      NoNullsAllListed(monitors[..|monitors| - 1]);
    }
  }
}
