/** The line splitter of `read_data`: each line of the input file becomes one
    row of reals. The characters before the last comma are cut into fields at
    every comma, and the text after the last comma, minus the line's final
    character (its newline), is the label. Every field goes through `float()`,
    which is a parameter here. */
module ReadData {

  import opened Errors

  /** Number of commas in `s`. */
  function CountCommas(s: string): (n: nat)
    ensures n <= |s|
  {
    if s == [] then 0
    else CountCommas(s[..|s| - 1]) + (if s[|s| - 1] == ',' then 1 else 0)
  }

  /** `s.rfind(',')`: the position of the last comma, or -1 when there is none. */
  function RFindComma(s: string): (loc: int)
    ensures -1 <= loc < |s|
    ensures 0 <= loc ==> s[loc] == ','
    ensures forall k :: loc < k < |s| ==> s[k] != ','
  {
    if s == [] then -1
    else if s[|s| - 1] == ',' then |s| - 1
    else RFindComma(s[..|s| - 1])
  }

  /** The fields the character loop produces from `s`: it starts with an empty
      field, extends the current field by every non-comma character and opens
      a new, empty field at every comma. */
  function Split(s: string): (fields: seq<string>)
    ensures |fields| > 0
  {
    if s == [] then [""]
    else
      var p := Split(s[..|s| - 1]);
      if s[|s| - 1] == ',' then p + [""]
      else p[..|p| - 1] + [p[|p| - 1] + [s[|s| - 1]]]
  }

  /** The fields already cut after reading `s` (handed to float()). */
  function Cut(s: string): seq<string> {
    var p := Split(s); p[..|p| - 1]
  }

  /** The field still being built after reading `s` (the scratch `feature`). */
  function Pending(s: string): string {
    var p := Split(s); p[|p| - 1]
  }

  /** Fields separated by commas. */
  function Join(fields: seq<string>): string
    requires |fields| > 0
  {
    if |fields| == 1 then fields[0]
    else Join(fields[..|fields| - 1]) + "," + fields[|fields| - 1]
  }

  /** The characters the field loop walks: those before the last comma
      (none when there is no comma, as `range(-1)` is empty). */
  function FeatureText(line: string): string {
    var loc := RFindComma(line);
    if loc < 0 then "" else line[..loc]
  }

  /** `line[loc + 1:-1]` under Python's slicing rules, `loc` the last comma. */
  function LabelText(line: string): string {
    var start := RFindComma(line) + 1;
    if start <= |line| - 1 then line[start..|line| - 1] else ""
  }

  /** The strings `read_data` hands to float() for one line, in call order. */
  function Fields(line: string): seq<string> {
    Split(FeatureText(line)) + [LabelText(line)]
  }

  /** float() applied to each string in order; the first string it rejects
      raises ValueError, and later strings are never read. */
  function ConvertAll(fields: seq<string>, toReal: string -> Option<real>): Result<seq<real>> {
    if fields == [] then Ok([])
    else
      match ConvertAll(fields[..|fields| - 1], toReal)
      case Err(e) => Err(e)
      case Ok(v) =>
        match toReal(fields[|fields| - 1])
        case None => Err(ValueError(fields[|fields| - 1]))
        case Some(x) => Ok(v + [x])
  }

  /** The row `read_data` builds from one line, or the error it raises. */
  function ParseLine(line: string, toReal: string -> Option<real>): Result<seq<real>> {
    ConvertAll(Fields(line), toReal)
  }

  /** The body of `read_data`'s loop for one line: the values parsed from
      `line` are appended, in order, to the row under construction
      `dataPoint`; the first string float() rejects raises ValueError. */
  method ParseInto(line: string, toReal: string -> Option<real>, dataPoint: seq<real>)
    returns (r: Result<seq<real>>)
    ensures r.Ok? <==> ParseLine(line, toReal).Ok?
    ensures r.Ok? ==> r.value == dataPoint + ParseLine(line, toReal).value
    ensures r.Err? ==> r == ParseLine(line, toReal)
  {
    var point := dataPoint;
    var loc := RFindComma(line);
    var feature := "";
    var i := 0;
    assert line[..0] == "";
    ghost var parsed: seq<real> := [];
    while i < loc
      invariant 0 <= i && (0 <= loc ==> i <= loc) && (loc < 0 ==> i == 0)
      invariant feature == Pending(line[..i])
      invariant ConvertAll(Cut(line[..i]), toReal) == Ok(parsed)
      invariant point == dataPoint + parsed
    {
      var c := line[i];
      if c != ',' {
        OtherCharStep(line, i);
        feature := feature + [c];
      } else {
        var x := toReal(feature);
        if x.None? {
          CommaFails(line, i, toReal, parsed);
          return Err(ValueError(feature));
        }
        CommaStep(line, i, toReal, parsed, x.value);
        point := point + [x.value];
        parsed := parsed + [x.value];
        feature := "";
      }
      i := i + 1;
    }
    assert line[..i] == FeatureText(line);
    r := FinishRow(line, toReal, dataPoint, point, feature, parsed);
  }

  /** The end of `read_data`'s line loop: the last feature (the text between
      the last-but-one and the last comma) and then the label are converted
      and appended. */
  method FinishRow(line: string, toReal: string -> Option<real>, dataPoint: seq<real>,
                   point: seq<real>, feature: string, ghost parsed: seq<real>)
    returns (r: Result<seq<real>>)
    requires feature == Pending(FeatureText(line))
    requires ConvertAll(Cut(FeatureText(line)), toReal) == Ok(parsed)
    requires point == dataPoint + parsed
    ensures r.Ok? <==> ParseLine(line, toReal).Ok?
    ensures r.Ok? ==> r.value == dataPoint + ParseLine(line, toReal).value
    ensures r.Err? ==> r == ParseLine(line, toReal)
  {
    var x := toReal(feature);
    if x.None? {
      LastFeatureFails(line, toReal, parsed);
      return Err(ValueError(feature));
    }
    LastFeatureParses(line, toReal, parsed, x.value);
    var labelText := LabelText(line);
    var y := toReal(labelText);
    if y.None? {
      LabelFails(line, toReal, parsed + [x.value]);
      return Err(ValueError(labelText));
    }
    LabelParses(line, toReal, parsed + [x.value], y.value);
    r := Ok(point + [x.value] + [y.value]);
  }

  /** `read_data` over the lines of the file (opening and reading the file
      are left to the caller). Rows are in line order, one per line, each
      holding exactly the values parsed from its own line, because the row
      under construction is emptied after each append; the first line that
      fails aborts the whole read with that line's error. */
  method ReadDataSet(lines: seq<string>, toReal: string -> Option<real>) returns (r: Result<seq<seq<real>>>)
    ensures r.Ok? <==> forall j :: 0 <= j < |lines| ==> ParseLine(lines[j], toReal).Ok?
    ensures r.Ok? ==>
      |r.value| == |lines| && forall j :: 0 <= j < |lines| ==> ParseLine(lines[j], toReal) == Ok(r.value[j])
    ensures r.Err? ==>
      exists j :: 0 <= j < |lines| && ParseLine(lines[j], toReal) == Err(r.error)
        && forall k :: 0 <= k < j ==> ParseLine(lines[k], toReal).Ok?
  {
    var dataSet: seq<seq<real>> := [];
    var dataPoint: seq<real> := [];
    var j := 0;
    while j < |lines|
      invariant 0 <= j <= |lines|
      invariant dataPoint == []
      invariant |dataSet| == j
      invariant forall k :: 0 <= k < j ==> ParseLine(lines[k], toReal) == Ok(dataSet[k])
    {
      var row := ParseInto(lines[j], toReal, dataPoint);
      if row.Err? {
        return Err(row.error);
      }
      dataPoint := row.value;
      assert dataPoint == ParseLine(lines[j], toReal).value;
      dataSet := dataSet + [dataPoint];
      dataPoint := [];
      j := j + 1;
    }
    r := Ok(dataSet);
  }

  // ---------------------------------------------------------------------------
  // Properties of the splitter

  /** One step of the character loop: a comma closes the pending field, any
      other character extends it. */
  lemma {:induction false} CutStep(s: string, c: char)
    ensures Cut(s + [c]) == if c == ',' then Cut(s) + [Pending(s)] else Cut(s)
    ensures Pending(s + [c]) == if c == ',' then "" else Pending(s) + [c]
  {
    assert (s + [c])[..|s|] == s;
    var p := Split(s);
    assert p == p[..|p| - 1] + [p[|p| - 1]];
  }

  lemma {:induction false} SplitIsCutPlusPending(s: string)
    ensures Split(s) == Cut(s) + [Pending(s)]
  {
  }

  /** What converting a list of strings yields: every value when float()
      accepts every string, in order; otherwise ValueError for the first
      string it rejects. */
  lemma {:induction false} ConvertAllMeaning(fields: seq<string>, toReal: string -> Option<real>)
    ensures ConvertAll(fields, toReal).Ok? <==> forall k :: 0 <= k < |fields| ==> toReal(fields[k]).Some?
    ensures ConvertAll(fields, toReal).Ok? ==>
      var v := ConvertAll(fields, toReal).value;
      |v| == |fields| && forall k :: 0 <= k < |fields| ==> toReal(fields[k]) == Some(v[k])
    ensures ConvertAll(fields, toReal).Err? ==>
      exists k :: 0 <= k < |fields| && toReal(fields[k]) == None
        && ConvertAll(fields, toReal).error == ValueError(fields[k])
        && forall j :: 0 <= j < k ==> toReal(fields[j]).Some?
  {
    if fields != [] {
      var init := fields[..|fields| - 1];
      ConvertAllMeaning(init, toReal);
      assert forall k :: 0 <= k < |init| ==> init[k] == fields[k];
    }
  }

  /** float() over a list with one more string at the end. */
  lemma {:induction false} ConvertSnoc(a: seq<string>, f: string, toReal: string -> Option<real>)
    ensures ConvertAll(a + [f], toReal) ==
      match ConvertAll(a, toReal)
      case Err(e) => Err(e)
      case Ok(v) => (match toReal(f) case None => Err(ValueError(f)) case Some(x) => Ok(v + [x]))
  {
    assert (a + [f])[..|a|] == a;
  }

  /** A character other than a comma extends the pending field. */
  lemma {:induction false} OtherCharStep(line: string, i: nat)
    requires i < |line| && line[i] != ','
    ensures Cut(line[..i + 1]) == Cut(line[..i])
    ensures Pending(line[..i + 1]) == Pending(line[..i]) + [line[i]]
  {
    assert line[..i + 1] == line[..i] + [line[i]];
    CutStep(line[..i], line[i]);
  }

  /** A comma hands the pending field to float() and starts an empty one. */
  lemma {:induction false} CommaStep(line: string, i: nat, toReal: string -> Option<real>, parsed: seq<real>, v: real)
    requires i < |line| && line[i] == ','
    requires ConvertAll(Cut(line[..i]), toReal) == Ok(parsed)
    requires toReal(Pending(line[..i])) == Some(v)
    ensures ConvertAll(Cut(line[..i + 1]), toReal) == Ok(parsed + [v])
    ensures Pending(line[..i + 1]) == ""
  {
    assert line[..i + 1] == line[..i] + [line[i]];
    CutStep(line[..i], line[i]);
    ConvertSnoc(Cut(line[..i]), Pending(line[..i]), toReal);
  }

  /** A field before the last comma that float() rejects fails the line. */
  lemma {:induction false} CommaFails(line: string, i: nat, toReal: string -> Option<real>, parsed: seq<real>)
    requires i < |FeatureText(line)| && i < |line| && line[i] == ','
    requires ConvertAll(Cut(line[..i]), toReal) == Ok(parsed)
    requires toReal(Pending(line[..i])) == None
    ensures ParseLine(line, toReal) == Err(ValueError(Pending(line[..i])))
  {
    assert line[..i + 1] == line[..i] + [line[i]];
    CutStep(line[..i], line[i]);
    ConvertSnoc(Cut(line[..i]), Pending(line[..i]), toReal);
    CutWithinFields(line, i + 1);
    ConvertPrefixFailure(Cut(line[..i + 1]), Fields(line), toReal);
  }

  /** The field pending when the loop stops is the last one before the label. */
  lemma {:induction false} LastFeatureParses(line: string, toReal: string -> Option<real>, parsed: seq<real>, v: real)
    requires ConvertAll(Cut(FeatureText(line)), toReal) == Ok(parsed)
    requires toReal(Pending(FeatureText(line))) == Some(v)
    ensures ConvertAll(Split(FeatureText(line)), toReal) == Ok(parsed + [v])
  {
    SplitIsCutPlusPending(FeatureText(line));
    ConvertSnoc(Cut(FeatureText(line)), Pending(FeatureText(line)), toReal);
  }

  lemma {:induction false} LastFeatureFails(line: string, toReal: string -> Option<real>, parsed: seq<real>)
    requires ConvertAll(Cut(FeatureText(line)), toReal) == Ok(parsed)
    requires toReal(Pending(FeatureText(line))) == None
    ensures ParseLine(line, toReal) == Err(ValueError(Pending(FeatureText(line))))
  {
    SplitIsCutPlusPending(FeatureText(line));
    ConvertSnoc(Cut(FeatureText(line)), Pending(FeatureText(line)), toReal);
    ConvertPrefixFailure(Split(FeatureText(line)), Fields(line), toReal);
  }

  lemma {:induction false} LabelParses(line: string, toReal: string -> Option<real>, parsed: seq<real>, v: real)
    requires ConvertAll(Split(FeatureText(line)), toReal) == Ok(parsed)
    requires toReal(LabelText(line)) == Some(v)
    ensures ParseLine(line, toReal) == Ok(parsed + [v])
  {
    ConvertSnoc(Split(FeatureText(line)), LabelText(line), toReal);
  }

  lemma {:induction false} LabelFails(line: string, toReal: string -> Option<real>, parsed: seq<real>)
    requires ConvertAll(Split(FeatureText(line)), toReal) == Ok(parsed)
    requires toReal(LabelText(line)) == None
    ensures ParseLine(line, toReal) == Err(ValueError(LabelText(line)))
  {
    ConvertSnoc(Split(FeatureText(line)), LabelText(line), toReal);
  }

  /** Once float() has failed on a prefix, the longer list fails the same way. */
  lemma {:induction false} ConvertPrefixFailure(a: seq<string>, b: seq<string>, toReal: string -> Option<real>)
    requires a <= b && ConvertAll(a, toReal).Err?
    ensures ConvertAll(b, toReal) == ConvertAll(a, toReal)
  {
    if |b| > |a| {
      var b' := b[..|b| - 1];
      assert a <= b';
      ConvertPrefixFailure(a, b', toReal);
    } else {
      assert a == b;
    }
  }

  /** The cut fields only grow as the loop reads on. */
  lemma {:induction false} CutPrefix(s: string, i: nat)
    requires i <= |s|
    ensures Cut(s[..i]) <= Cut(s)
  {
    if i < |s| {
      var s' := s[..|s| - 1];
      assert s'[..i] == s[..i];
      CutPrefix(s', i);
      assert s == s' + [s[|s| - 1]];
      CutStep(s', s[|s| - 1]);
    } else {
      assert s[..i] == s;
    }
  }

  /** Every field the loop has cut so far is among the fields of the line. */
  lemma {:induction false} CutWithinFields(line: string, i: nat)
    requires i <= |FeatureText(line)|
    ensures line[..i] == FeatureText(line)[..i]
    ensures Cut(line[..i]) <= Fields(line)
  {
    var ft := FeatureText(line);
    CutPrefix(ft, i);
    SplitIsCutPlusPending(ft);
  }

  /** Splitting then joining gives back the text, and no field holds a comma:
      each field is exactly the text between two consecutive commas. */
  lemma {:induction false} JoinSplit(s: string)
    ensures Join(Split(s)) == s
    ensures forall k :: 0 <= k < |Split(s)| ==> ',' !in Split(s)[k]
  {
    if s != [] {
      var s' := s[..|s| - 1];
      var c := s[|s| - 1];
      var p := Split(s');
      JoinSplit(s');
      assert s == s' + [c];
      if c == ',' {
        assert (p + [""])[..|p|] == p;
      } else if |p| > 1 {
        var q := p[..|p| - 1] + [p[|p| - 1] + [c]];
        assert q[..|q| - 1] == p[..|p| - 1];
        assert p[..|p| - 1] + [p[|p| - 1]] == p;
        assert Join(p) == Join(p[..|p| - 1]) + "," + p[|p| - 1];
      }
    }
  }

  /** Reading comma-free characters cuts no field and only extends the
      pending one. */
  lemma {:induction false} PendingExtend(x: string, t: string)
    requires ',' !in t
    ensures Cut(x + t) == Cut(x) && Pending(x + t) == Pending(x) + t
  {
    if t == [] {
      assert x + t == x;
      assert Pending(x) + t == Pending(x);
    } else {
      var t' := t[..|t| - 1];
      var c := t[|t| - 1];
      assert t == t' + [c];
      PendingExtend(x, t');
      assert x + t == (x + t') + [c];
      CutStep(x + t', c);
      assert (Pending(x) + t') + [c] == Pending(x) + t;
    }
  }

  /** Splitting a text extended by comma-free characters only extends the
      pending field. */
  lemma {:induction false} SplitExtend(x: string, t: string)
    requires ',' !in t
    ensures Split(x + t) == Cut(x) + [Pending(x) + t]
  {
    PendingExtend(x, t);
    SplitIsCutPlusPending(x + t);
  }

  /** Split undoes Join on comma-free fields: the split is the only list of
      comma-free fields that joins to the text. */
  lemma {:induction false} SplitJoin(fields: seq<string>)
    requires |fields| > 0
    requires forall k :: 0 <= k < |fields| ==> ',' !in fields[k]
    ensures Split(Join(fields)) == fields
  {
    var last := fields[|fields| - 1];
    if |fields| == 1 {
      SplitExtend("", last);
      assert "" + last == last;
    } else {
      var init := fields[..|fields| - 1];
      assert fields == init + [last];
      var j := Join(init);
      SplitJoin(init);
      SplitIsCutPlusPending(j);
      CutStep(j, ',');
      assert Cut(j + [',']) == init;
      assert Pending(j + [',']) == "";
      SplitExtend(j + [','], last);
      assert Join(fields) == (j + [',']) + last;
      assert "" + last == last;
    }
  }

  /** One field more than commas. */
  lemma {:induction false} SplitLength(s: string)
    ensures |Split(s)| == CountCommas(s) + 1
  {
    if s != [] {
      SplitLength(s[..|s| - 1]);
    }
  }

  /** Commas after position k do not change the count below it. */
  lemma {:induction false} CountCommasPrefix(s: string, k: nat)
    requires k <= |s|
    requires forall i :: k <= i < |s| ==> s[i] != ','
    ensures CountCommas(s[..k]) == CountCommas(s)
  {
    if k < |s| {
      var s' := s[..|s| - 1];
      assert s'[..k] == s[..k];
      CountCommasPrefix(s', k);
    } else {
      assert s[..k] == s;
    }
  }

  /** A line with a comma is its feature text, the last comma, and a
      comma-free tail. */
  lemma {:induction false} LastComma(line: string)
    requires ',' in line
    ensures 0 <= RFindComma(line) < |line|
    ensures line == FeatureText(line) + "," + line[RFindComma(line) + 1..]
    ensures ',' !in line[RFindComma(line) + 1..]
    ensures CountCommas(line) == CountCommas(FeatureText(line)) + 1
  {
    var loc := RFindComma(line);
    var ft := FeatureText(line);
    assert ft == line[..loc];
    assert line == line[..loc + 1] + line[loc + 1..];
    assert line[..loc + 1] == ft + [','];
    CountCommasPrefix(line, loc + 1);
    assert (ft + [','])[..|ft|] == ft;
  }

  /** The label text is the tail after the last comma without the line's
      final character. */
  lemma {:induction false} LabelOfTail(line: string)
    requires ',' in line
    ensures line[|line| - 1] == ',' ==> line[RFindComma(line) + 1..] == "" && LabelText(line) == ""
    ensures line[|line| - 1] != ',' ==>
      line[RFindComma(line) + 1..] == LabelText(line) + [line[|line| - 1]]
  {
  }

  /** The fields joined back with commas give the feature text, a comma and
      the label text; none of them holds a comma. */
  lemma {:induction false} FieldsJoin(line: string)
    requires ',' in line
    ensures |Fields(line)| == CountCommas(FeatureText(line)) + 2
    ensures forall k :: 0 <= k < |Fields(line)| ==> ',' !in Fields(line)[k]
    ensures Join(Fields(line)) == FeatureText(line) + "," + LabelText(line)
  {
    var ft, lt := FeatureText(line), LabelText(line);
    var p := Split(ft);
    LastComma(line);
    LabelOfTail(line);
    JoinSplit(ft);
    SplitLength(ft);
    assert ',' !in lt by {
      var tail := line[RFindComma(line) + 1..];
      if lt != "" {
        assert lt == tail[..|tail| - 1];
      }
    }
    assert (p + [lt])[..|p|] == p;
  }

  /** The strings read_data converts for a line with a comma: one more than
      the commas of the line, none holding a comma, and joined back with
      commas they give the line without its final character. When that final
      character is the last comma itself, the label text is empty. */
  lemma {:induction false} FieldsOfLine(line: string)
    requires ',' in line
    ensures |Fields(line)| == CountCommas(line) + 1
    ensures forall k :: 0 <= k < |Fields(line)| ==> ',' !in Fields(line)[k]
    ensures line[|line| - 1] != ',' ==>
      |Fields(line)| == CountCommas(line[..|line| - 1]) + 1 && Join(Fields(line)) + [line[|line| - 1]] == line
    ensures line[|line| - 1] == ',' ==> Join(Fields(line)) == line && LabelText(line) == ""
  {
    var ft, lt := FeatureText(line), LabelText(line);
    var tail := line[RFindComma(line) + 1..];
    LastComma(line);
    LabelOfTail(line);
    FieldsJoin(line);
    if line[|line| - 1] != ',' {
      assert line == ft + "," + tail;
      assert tail == lt + [line[|line| - 1]];
      assert line == (ft + "," + lt) + [line[|line| - 1]];
    } else {
      assert tail == "";
      assert line == ft + "," + lt;
    }
  }

  /** A line without a comma raises: the field loop does not run, so the
      first string handed to float() is the empty one, which Python's
      float() rejects. */
  lemma {:induction false} LineWithoutCommaFails(line: string, toReal: string -> Option<real>)
    requires ',' !in line
    requires toReal("") == None
    ensures ParseLine(line, toReal) == Err(ValueError(""))
  {
    assert RFindComma(line) == -1;
    assert Fields(line) == [""] + [LabelText(line)];
    ConvertSnoc([], "", toReal);
    ConvertPrefixFailure([""], Fields(line), toReal);
  }

  /** A row read_data accepts, with Python's float() rejecting the empty
      string: the line has a comma, and its last character is not that comma;
      the row has one value per comma-separated field of the line without its
      final character, in left-to-right order, the last one read from the text
      between the last comma and the final character. */
  lemma {:induction false} ParsedRow(line: string, toReal: string -> Option<real>)
    requires ParseLine(line, toReal).Ok?
    requires toReal("") == None
    ensures ',' in line && line[|line| - 1] != ','
    ensures var row := ParseLine(line, toReal).value;
      && |row| == CountCommas(line[..|line| - 1]) + 1
      && |row| == |Fields(line)|
      && (forall k :: 0 <= k < |row| ==> toReal(Fields(line)[k]) == Some(row[k]))
      && toReal(LabelText(line)) == Some(row[|row| - 1])
      && Join(Fields(line)) + [line[|line| - 1]] == line
      && (forall k :: 0 <= k < |Fields(line)| ==> ',' !in Fields(line)[k])
  {
    if ',' !in line {
      LineWithoutCommaFails(line, toReal);
    }
    ConvertAllMeaning(Fields(line), toReal);
    FieldsOfLine(line);
    var fs := Fields(line);
    assert fs[|fs| - 1] == LabelText(line);
  }
}
