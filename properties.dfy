/** The `.properties` reader of `PropertiesParser`: a line-based `key=value`
    format with `#`/`!` comments and backslash escapes in values. */
module Properties {
  import opened Strings
  import opened Types

  // ---------------------------------------------------------------------
  // Escapes

  /** The character an escape `\c` stands for: `\n`, `\t`, `\r` are control
      characters, anything else (including `\\`) stands for itself. */
  function EscapedChar(c: char): char
  {
    if c == 'n' then '\n' else if c == 't' then '\t' else if c == 'r' then '\r' else c
  }

  /** What `unescape_properties` produces for `v`; a lone trailing backslash
      is dropped. */
  function Unescaped(v: string): string
    decreases |v|
  {
    if v == [] then []
    else if v[0] != '\\' then [v[0]] + Unescaped(v[1..])
    else if |v| == 1 then []
    else [EscapedChar(v[1])] + Unescaped(v[2..])
  }

  /** How `Unescaped` proceeds at position `i`. */
  lemma UnescapedAt(v: string, i: nat)
    requires i < |v|
    ensures v[i] != '\\' ==> Unescaped(v[i..]) == [v[i]] + Unescaped(v[i + 1..])
    ensures v[i] == '\\' && i + 1 < |v| ==> Unescaped(v[i..]) == [EscapedChar(v[i + 1])] + Unescaped(v[i + 2..])
    ensures v[i] == '\\' && i + 1 == |v| ==> Unescaped(v[i..]) == []
  {
    assert v[i..][1..] == v[i + 1..];
    if i + 1 < |v| {
      assert v[i..][2..] == v[i + 2..];
    }
  }

  /** `unescape_properties`: drains the characters of `value` into a new string. */
  method UnescapeProperties(value: string) returns (result: string)
    ensures result == Unescaped(value)
  {
    result := "";
    var i := 0;
    while i < |value|
      invariant 0 <= i <= |value|
      invariant result + Unescaped(value[i..]) == Unescaped(value)
    {
      var c := value[i];
      UnescapedAt(value, i);
      if c == '\\' {
        if i + 1 < |value| {
          var d := value[i + 1];
          var decoded;
          if d == 'n' {
            decoded := '\n';
          } else if d == 't' {
            decoded := '\t';
          } else if d == 'r' {
            decoded := '\r';
          } else if d == '\\' {
            decoded := '\\';
          } else {
            decoded := d;
          }
          assert decoded == EscapedChar(d);
          AppendShift(result, decoded, Unescaped(value[i + 2..]));
          result := result + [decoded];
          i := i + 2;
        } else {
          break;
        }
      } else {
        AppendShift(result, c, Unescaped(value[i + 1..]));
        result := result + [c];
        i := i + 1;
      }
    }
    if i == |value| {
      assert value[i..] == [];
    }
  }

  /** Moving one character from the unread part to the result. */
  lemma AppendShift(done: string, c: char, rest: string)
    ensures (done + [c]) + rest == done + ([c] + rest)
  {
  }

  /** A value without backslashes is left as it is. */
  lemma {:induction false} UnescapedIdentity(v: string)
    requires '\\' !in v
    ensures Unescaped(v) == v
    decreases |v|
  {
    if v != [] {
      assert v[0] != '\\';
      UnescapedIdentity(v[1..]);
    }
  }

  /** Unescaping never lengthens a value. */
  lemma {:induction false} UnescapedNoLonger(v: string)
    ensures |Unescaped(v)| <= |v|
    decreases |v|
  {
    if v != [] {
      if v[0] != '\\' {
        UnescapedNoLonger(v[1..]);
      } else if |v| > 1 {
        UnescapedNoLonger(v[2..]);
      }
    }
  }

  /** A backslash before a character with no special meaning yields the
      character, and a lone backslash at the end is dropped. */
  lemma UnescapedOtherAndTrailing(v: string, c: char)
    requires '\\' !in v
    requires c != 'n' && c != 't' && c != 'r'
    ensures Unescaped(v + ['\\', c]) == v + [c]
    ensures Unescaped(v + ['\\']) == v
  {
    UnescapedAppend(v, ['\\', c]);
    UnescapedAppend(v, ['\\']);
  }

  lemma {:induction false} UnescapedAppend(v: string, tail: string)
    requires '\\' !in v
    ensures Unescaped(v + tail) == v + Unescaped(tail)
    decreases |v|
  {
    if v != [] {
      assert (v + tail)[1..] == v[1..] + tail;
      assert v[0] != '\\';
      UnescapedAppend(v[1..], tail);
    } else {
      assert v + tail == tail;
    }
  }

  /** The escape for one character, inverse to `EscapedChar`. */
  function EscapeChar(c: char): string
  {
    if c == '\\' then "\\\\"
    else if c == '\n' then "\\n"
    else if c == '\t' then "\\t"
    else if c == '\r' then "\\r"
    else [c]
  }

  /** Writes a value so that the reader gives it back. */
  function Escape(s: string): (r: string)
    ensures '\n' !in r && '\r' !in r
  {
    if s == [] then [] else EscapeChar(s[0]) + Escape(s[1..])
  }

  /** Unescaping undoes escaping. */
  lemma {:induction false} UnescapeEscape(s: string)
    ensures Unescaped(Escape(s)) == s
  {
    if s != [] {
      UnescapeEscape(s[1..]);
      UnescapeEscapeChar(s[0], Escape(s[1..]));
    }
  }

  /** The escape of one character, followed by anything, is read back as that character. */
  lemma UnescapeEscapeChar(c: char, rest: string)
    ensures Unescaped(EscapeChar(c) + rest) == [c] + Unescaped(rest)
  {
    var e := EscapeChar(c) + rest;
    if c == '\\' || c == '\n' || c == '\t' || c == '\r' {
      assert e[0] == '\\' && e[2..] == rest;
    } else {
      assert e[0] == c && e[1..] == rest;
    }
  }

  lemma {:induction false} EscapeEnds(s: string)
    requires s != [] && Trimmed(s)
    ensures Escape(s) != [] && Trimmed(Escape(s))
  {
    EscapeLast(s);
  }

  lemma {:induction false} EscapeLast(s: string)
    requires s != []
    ensures Escape(s) != [] && Escape(s)[|Escape(s)| - 1] == EscapeChar(s[|s| - 1])[|EscapeChar(s[|s| - 1])| - 1]
  {
    if |s| > 1 {
      EscapeLast(s[1..]);
      assert s[1..][|s[1..]| - 1] == s[|s| - 1];
    } else {
      assert Escape(s) == EscapeChar(s[0]) + Escape([]);
    }
  }

  // ---------------------------------------------------------------------
  // Lines and files

  /** What one line of the file contributes: nothing for blank and comment
      lines and lines without `=`, else the trimmed key before the first `=`
      and the trimmed, unescaped value after it. */
  function ParseLine(raw: string): Option<(string, string)>
  {
    var line := Trim(raw);
    if line == [] || line[0] == '#' || line[0] == '!' then None
    else match Find(line, '=')
      case None => None
      case Some(pos) => Some((Trim(line[..pos]), Unescaped(Trim(line[pos + 1..]))))
  }

  function LinePairs(raw: string): seq<(string, string)>
  {
    match ParseLine(raw)
    case None => []
    case Some(p) => [p]
  }

  /** A line yields a pair exactly when, once trimmed, it is neither blank
      nor a comment and holds an `=`. The split is at the first `=`: the key
      holds none, while the value may. */
  lemma ParseLineSpec(raw: string)
    ensures ParseLine(raw).Some? <==>
      Trim(raw) != [] && Trim(raw)[0] != '#' && Trim(raw)[0] != '!' && '=' in Trim(raw)
    ensures ParseLine(raw).Some? ==> '=' !in ParseLine(raw).value.0
  {
    var line := Trim(raw);
    if line != [] && line[0] != '#' && line[0] != '!' && '=' in line {
      var pos := Find(line, '=').value;
      TrimWithin(line[..pos], '=');
    }
  }

  /** The pairs of a sequence of lines, in line order. */
  function PairsOfLines(ls: seq<string>): seq<(string, string)>
  {
    ConcatMap(LinePairs, ls)
  }

  /** `f` applied to each element, the results joined in order. */
  function ConcatMap<T, U>(f: T -> seq<U>, xs: seq<T>): seq<U>
    decreases |xs|
  {
    if xs == [] then [] else ConcatMap(f, xs[..|xs| - 1]) + f(xs[|xs| - 1])
  }

  lemma {:induction false} ConcatMapAppend<T, U>(f: T -> seq<U>, a: seq<T>, b: seq<T>)
    ensures ConcatMap(f, a + b) == ConcatMap(f, a) + ConcatMap(f, b)
    decreases |b|
  {
    if b == [] {
      assert a + b == a;
    } else {
      assert (a + b)[..|a + b| - 1] == a + b[..|b| - 1];
      ConcatMapAppend(f, a, b[..|b| - 1]);
    }
  }

  /** The pairs `parse_content` returns for a whole file. */
  function PropertiesOf(content: string): seq<(string, string)>
  {
    PairsOfLines(Lines(content))
  }

  /** `parse_content`. */
  method ParseContent(content: string) returns (properties: seq<(string, string)>)
    ensures properties == PropertiesOf(content)
  {
    properties := [];
    var lines := Lines(content);
    for k := 0 to |lines|
      invariant properties == PairsOfLines(lines[..k])
    {
      var pair := ParseOneLine(lines[k]);
      PairsOfLinesStep(lines, k, pair);
      if pair.Some? {
        properties := properties + [pair.value];
      }
    }
    assert lines[..|lines|] == lines;
  }

  /** The body of the loop in `parse_content`, for one raw line. */
  method ParseOneLine(raw: string) returns (pair: Option<(string, string)>)
    ensures pair == ParseLine(raw)
  {
    var line := Trim(raw);
    if line == [] || line[0] == '#' || line[0] == '!' {
      return None;
    }
    match Find(line, '=') {
      case Some(pos) =>
        var key := Trim(line[..pos]);
        var value := UnescapeProperties(Trim(line[pos + 1..]));
        pair := Some((key, value));
      case None =>
        pair := None;
    }
  }

  /** One more line adds the pair it parses to, if any. */
  lemma PairsOfLinesStep(ls: seq<string>, k: nat, pair: Option<(string, string)>)
    requires k < |ls| && pair == ParseLine(ls[k])
    ensures PairsOfLines(ls[..k + 1]) == PairsOfLines(ls[..k]) + (if pair.Some? then [pair.value] else [])
  {
    assert ls[..k + 1][..k] == ls[..k];
  }

  lemma PairsOfLinesSnoc(ls: seq<string>, l: string)
    ensures PairsOfLines(ls + [l]) == PairsOfLines(ls) + LinePairs(l)
  {
    assert (ls + [l])[..|ls|] == ls;
  }

  /** Blank lines and `#`/`!` comments add nothing to what came before. */
  lemma SkippedLines(ls: seq<string>, raw: string)
    requires Trim(raw) == [] || Trim(raw)[0] == '#' || Trim(raw)[0] == '!'
    ensures PairsOfLines(ls + [raw]) == PairsOfLines(ls)
  {
    PairsOfLinesSnoc(ls, raw);
  }

  /** Every line contributes at most one pair. */
  lemma {:induction false} PairsOfLinesLength(ls: seq<string>)
    ensures |PairsOfLines(ls)| <= |ls|
  {
    if ls != [] {
      PairsOfLinesLength(ls[..|ls| - 1]);
    }
  }

  lemma PairsOfLinesAppend(a: seq<string>, b: seq<string>)
    ensures PairsOfLines(a + b) == PairsOfLines(a) + PairsOfLines(b)
  {
    ConcatMapAppend(LinePairs, a, b);
  }

  /** A key that the reader keeps exactly: no `=`, no line break, no
      whitespace at its ends and no comment marker at its start. */
  predicate PlainKey(k: string) {
    '=' !in k && '\n' !in k && '\r' !in k && Trimmed(k) && (k == [] || (k[0] != '#' && k[0] != '!'))
  }

  /** A pair the writer below renders so that the reader gives it back:
      a plain key and a value with no whitespace at its ends. */
  predicate Plain(p: (string, string)) {
    PlainKey(p.0) && Trimmed(p.1)
  }

  /** The line a writer emits for one pair. */
  function Render(p: (string, string)): string
  {
    p.0 + "=" + Escape(p.1)
  }

  lemma RenderShape(k: string, v: string)
    requires Plain((k, v))
    ensures Trimmed(Render((k, v))) && Trimmed(Escape(v))
    ensures '\n' !in Render((k, v))
    ensures Render((k, v))[|Render((k, v))| - 1] != '\r'
  {
    var e := Escape(v);
    var line := k + "=" + e;
    if v != [] {
      EscapeEnds(v);
      assert line[|line| - 1] == e[|e| - 1];
    } else {
      assert e == [];
      assert line[|line| - 1] == '=';
    }
    if k != [] {
      assert line[0] == k[0];
    } else {
      assert line[0] == '=';
    }
  }

  /** A rendered pair is read back as that pair; the value may itself contain
      `=`, and an empty value gives `(key, "")`. */
  lemma ParseLineRender(k: string, v: string)
    requires Plain((k, v))
    ensures ParseLine(Render((k, v))) == Some((k, v))
  {
    var e := Escape(v);
    var line := k + "=" + e;
    RenderShape(k, v);
    TrimOfTrimmed(line);
    assert line[..|k|] == k;
    FindAt(line, '=', |k|);
    assert line[|k| + 1..] == e;
    TrimOfTrimmed(k);
    TrimOfTrimmed(e);
    UnescapeEscape(v);
    assert line[0] != '#' && line[0] != '!' by {
      if k != [] {
        assert line[0] == k[0];
      }
    }
  }

  function RenderAll(ps: seq<(string, string)>): (ls: seq<string>)
    ensures |ls| == |ps|
    ensures forall i :: 0 <= i < |ps| ==> ls[i] == Render(ps[i])
  {
    if ps == [] then [] else [Render(ps[0])] + RenderAll(ps[1..])
  }

  /** A file written pair by pair, each line ended by a newline, is read
      back as exactly those pairs, in order and with duplicate keys kept. */
  lemma ReadWritten(ps: seq<(string, string)>)
    requires forall i :: 0 <= i < |ps| ==> Plain(ps[i])
    ensures PropertiesOf(Terminated(RenderAll(ps))) == ps
  {
    var ls := RenderAll(ps);
    forall i | 0 <= i < |ls|
      ensures '\n' !in ls[i] && (ls[i] == [] || ls[i][|ls[i]| - 1] != '\r')
    {
      RenderShape(ps[i].0, ps[i].1);
    }
    LinesOfTerminated(ls);
    PairsOfRendered(ps);
  }

  lemma {:induction false} PairsOfRendered(ps: seq<(string, string)>)
    requires forall i :: 0 <= i < |ps| ==> Plain(ps[i])
    ensures PairsOfLines(RenderAll(ps)) == ps
  {
    if ps != [] {
      var tail := ps[1..];
      var first := [Render(ps[0])];
      var rest := RenderAll(tail);
      PairsOfRendered(tail);
      PairRendered(ps[0]);
      PairsOfLinesAppend(first, rest);
      assert RenderAll(ps) == first + rest;
      assert ps == [ps[0]] + tail;
    }
  }

  /** One rendered line is read back as its pair. */
  lemma PairRendered(p: (string, string))
    requires Plain(p)
    ensures PairsOfLines([Render(p)]) == [p]
  {
    ParseLineRender(p.0, p.1);
    PairsOfLinesSnoc([], Render(p));
    assert [] + [Render(p)] == [Render(p)];
  }

  // ---------------------------------------------------------------------
  // Lookups

  /** Collecting pairs into a map: a later pair overrides an earlier one. */
  function ToMap(ps: seq<(string, string)>): map<string, string>
  {
    if ps == [] then map[] else ToMap(ps[..|ps| - 1])[ps[|ps| - 1].0 := ps[|ps| - 1].1]
  }

  lemma ToMapSnoc(ps: seq<(string, string)>, p: (string, string))
    ensures ToMap(ps + [p]) == ToMap(ps)[p.0 := p.1]
  {
    assert (ps + [p])[..|ps|] == ps;
  }

  /** The map's keys are exactly the keys of the pairs. */
  lemma {:induction false} ToMapKeys(ps: seq<(string, string)>)
    ensures ToMap(ps).Keys == set i | 0 <= i < |ps| :: ps[i].0
  {
    if ps != [] {
      var init := ps[..|ps| - 1];
      ToMapKeys(init);
      assert forall i :: 0 <= i < |init| ==> init[i] == ps[i];
    }
  }

  /** The value kept for a key is the one of its last pair. */
  lemma {:induction false} ToMapLastWins(ps: seq<(string, string)>, i: nat)
    requires i < |ps|
    requires forall j :: i < j < |ps| ==> ps[j].0 != ps[i].0
    ensures ps[i].0 in ToMap(ps) && ToMap(ps)[ps[i].0] == ps[i].1
  {
    if i < |ps| - 1 {
      var init := ps[..|ps| - 1];
      ToMapLastWins(init, i);
    }
  }

  /** `parse_to_map`. */
  function ParseToMap(content: string): map<string, string>
  {
    ToMap(PropertiesOf(content))
  }

  /** The value of the first pair with key `key`. */
  function FirstValue(ps: seq<(string, string)>, key: string): (r: Option<string>)
    ensures r.None? <==> forall i :: 0 <= i < |ps| ==> ps[i].0 != key
    ensures r.Some? ==> exists i :: 0 <= i < |ps| && ps[i] == (key, r.value) && forall j :: 0 <= j < i ==> ps[j].0 != key
  {
    if ps == [] then None
    else if ps[0].0 == key then
      assert ps[0] == (key, ps[0].1);
      Some(ps[0].1)
    else
      FirstValueShift(ps, key);
      FirstValue(ps[1..], key)
  }

  lemma FirstValueShift(ps: seq<(string, string)>, key: string)
    requires ps != [] && ps[0].0 != key
    ensures (forall i :: 0 <= i < |ps| ==> ps[i].0 != key) <==> (forall i :: 0 <= i < |ps[1..]| ==> ps[1..][i].0 != key)
    ensures forall v, i :: 0 <= i < |ps[1..]| && ps[1..][i] == (key, v) && (forall j :: 0 <= j < i ==> ps[1..][j].0 != key)
              ==> ps[i + 1] == (key, v) && forall j :: 0 <= j < i + 1 ==> ps[j].0 != key
  {
    assert forall i :: 0 <= i < |ps[1..]| ==> ps[1..][i] == ps[i + 1];
    forall v, i | 0 <= i < |ps[1..]| && ps[1..][i] == (key, v) && (forall j :: 0 <= j < i ==> ps[1..][j].0 != key)
      ensures ps[i + 1] == (key, v) && forall j :: 0 <= j < i + 1 ==> ps[j].0 != key
    {
      forall j | 0 <= j < i + 1 ensures ps[j].0 != key {
        if j > 0 {
          assert ps[j] == ps[1..][j - 1];
        }
      }
    }
  }

  /** `get_property`: the first value given for `key`, if any. */
  function GetProperty(content: string, key: string): Option<string>
  {
    FirstValue(PropertiesOf(content), key)
  }

  /** For a key given twice, `get_property` reads the first value while
      `parse_to_map` keeps the second. */
  lemma FirstAndLastDiffer(k: string, v1: string, v2: string)
    requires Plain((k, v1)) && Plain((k, v2))
    ensures GetProperty(Terminated(RenderAll([(k, v1), (k, v2)])), k) == Some(v1)
    ensures var m := ParseToMap(Terminated(RenderAll([(k, v1), (k, v2)]))); k in m && m[k] == v2
  {
    var ps := [(k, v1), (k, v2)];
    ReadWritten(ps);
    ToMapLastWins(ps, 1);
  }

  function AllPairs(files: seq<PropertiesFile>): seq<(string, string)>
  {
    if files == [] then [] else AllPairs(files[..|files| - 1]) + files[|files| - 1].properties
  }

  /** One more file appends its pairs. */
  lemma AllPairsStep(files: seq<PropertiesFile>, f: nat)
    requires f < |files|
    ensures AllPairs(files[..f + 1]) == AllPairs(files[..f]) + files[f].properties
  {
    assert files[..f + 1][..f] == files[..f];
  }

  /** `merge_properties`: inserts every pair of every file, in order, into one map. */
  method MergeProperties(files: seq<PropertiesFile>) returns (merged: map<string, string>)
    ensures merged == ToMap(AllPairs(files))
  {
    merged := map[];
    for f := 0 to |files|
      invariant merged == ToMap(AllPairs(files[..f]))
    {
      AllPairsStep(files, f);
      merged := InsertProperties(AllPairs(files[..f]), merged, files[f].properties);
    }
    assert files[..|files|] == files;
  }

  /** The inner loop of `merge_properties`: inserts one file's pairs, in
      order, into the map built from the pairs before them. */
  method InsertProperties(before: seq<(string, string)>, merged: map<string, string>, props: seq<(string, string)>)
    returns (result: map<string, string>)
    requires merged == ToMap(before)
    ensures result == ToMap(before + props)
  {
    result := merged;
    assert before + props[..0] == before;
    for j := 0 to |props|
      invariant result == ToMap(before + props[..j])
    {
      ToMapSnoc(before + props[..j], props[j]);
      assert before + props[..j + 1] == (before + props[..j]) + [props[j]];
      result := result[props[j].0 := props[j].1];
    }
    assert props[..|props|] == props;
  }

  /** Every entry of the map comes from some pair. */
  lemma {:induction false} ToMapValueFrom(ps: seq<(string, string)>, k: string)
    requires k in ToMap(ps)
    ensures (k, ToMap(ps)[k]) in ps
  {
    var init := ps[..|ps| - 1];
    assert ps == init + [ps[|ps| - 1]];
    if ps[|ps| - 1].0 != k {
      ToMapValueFrom(init, k);
    }
  }

  /** Entries of later pairs win over earlier ones. */
  lemma {:induction false} ToMapAppend(a: seq<(string, string)>, b: seq<(string, string)>, k: string)
    requires k in ToMap(b)
    ensures k in ToMap(a + b) && ToMap(a + b)[k] == ToMap(b)[k]
    decreases |b|
  {
    var init := b[..|b| - 1];
    assert a + b == (a + init) + [b[|b| - 1]];
    ToMapSnoc(a + init, b[|b| - 1]);
    assert b == init + [b[|b| - 1]];
    if b[|b| - 1].0 != k {
      ToMapAppend(a, init, k);
    }
  }

  /** A key set in the last file overrides every earlier file: the merged
      value is the one that file alone gives. */
  lemma MergeLaterOverrides(files: seq<PropertiesFile>, k: string)
    requires files != [] && k in ToMap(files[|files| - 1].properties)
    ensures var merged := ToMap(AllPairs(files));
      k in merged && merged[k] == ToMap(files[|files| - 1].properties)[k]
  {
    var props := files[|files| - 1].properties;
    assert AllPairs(files) == AllPairs(files[..|files| - 1]) + props;
    ToMapAppend(AllPairs(files[..|files| - 1]), props, k);
  }
}
