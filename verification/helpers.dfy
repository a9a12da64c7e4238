/**
 * The shared installer helpers: reading and writing the `.env` file,
 * prompting for configuration values, and dispatching a service's setup.
 *
 * A Python dict is an insertion-ordered mapping; it is modelled here as an
 * association list whose keys are distinct, where assigning to a present key
 * replaces its value in place and assigning to a new key appends it.
 * The `.env` file is its text, or None when the file does not exist.
 */
module Helpers {
  import opened Wrappers
  import opened PyText

  type EnvDict = seq<(string, string)>

  function Keys(d: EnvDict): set<string> {
    if d == [] then {} else {d[0].0} + Keys(d[1..])
  }

  /** No key occurs twice, as in any dict. */
  predicate DistinctKeys(d: EnvDict) {
    d == [] || (d[0].0 !in Keys(d[1..]) && DistinctKeys(d[1..]))
  }

  lemma {:induction false} InKeys(d: EnvDict, k: string)
    ensures k in Keys(d) <==> exists i :: 0 <= i < |d| && d[i].0 == k
  {
    if d != [] {
      InKeys(d[1..], k);
      if k in Keys(d[1..]) {
        var i :| 0 <= i < |d[1..]| && d[1..][i].0 == k;
        assert d[i + 1].0 == k;
      }
      if exists i :: 0 <= i < |d| && d[i].0 == k {
        var i :| 0 <= i < |d| && d[i].0 == k;
        if i > 0 { assert d[1..][i - 1].0 == k; }
      }
    }
  }

  lemma {:induction false} KeysAppend(a: EnvDict, b: EnvDict)
    ensures Keys(a + b) == Keys(a) + Keys(b)
  {
    if a == [] {
      assert a + b == b;
    } else {
      assert (a + b)[0] == a[0];
      assert (a + b)[1..] == a[1..] + b;
      KeysAppend(a[1..], b);
    }
  }

  /** `d.get(k)`: the value stored under `k`, or None. */
  function Get(d: EnvDict, k: string): (r: Option<string>)
    ensures r.None? <==> k !in Keys(d)
    ensures r.Some? ==> (k, r.value) in d
  {
    if d == [] then None
    else if d[0].0 == k then Some(d[0].1)
    else Get(d[1..], k)
  }

  /** `d[k] = v`: replaces the value of a present key where it stands, or appends a new key. */
  function Put(d: EnvDict, k: string, v: string): (r: EnvDict)
    ensures |r| == if k in Keys(d) then |d| else |d| + 1
  {
    if d == [] then [(k, v)]
    else if d[0].0 == k then [(k, v)] + d[1..]
    else [d[0]] + Put(d[1..], k, v)
  }

  /** After `d[k] = v`, `k` reads back as `v` and every other key reads as before. */
  lemma {:induction false} PutGet(d: EnvDict, k: string, v: string, k': string)
    ensures Get(Put(d, k, v), k') == if k' == k then Some(v) else Get(d, k')
  {
    if d != [] && d[0].0 != k {
      PutGet(d[1..], k, v, k');
    }
  }

  lemma {:induction false} PutKeys(d: EnvDict, k: string, v: string)
    ensures Keys(Put(d, k, v)) == Keys(d) + {k}
    ensures DistinctKeys(d) ==> DistinctKeys(Put(d, k, v))
  {
    if d != [] {
      var r := Put(d, k, v);
      if d[0].0 == k {
        assert r[0] == (k, v) && r[1..] == d[1..];
      } else {
        PutKeys(d[1..], k, v);
        assert r[0] == d[0] && r[1..] == Put(d[1..], k, v);
      }
    }
  }

  /** Assigning a key the dict does not hold appends it at the end. */
  lemma {:induction false} PutNew(d: EnvDict, k: string, v: string)
    requires k !in Keys(d)
    ensures Put(d, k, v) == d + [(k, v)]
  {
    if d != [] {
      PutNew(d[1..], k, v);
    }
  }

  // ----- Splitting the file into lines -----

  /**
   * What a file opened in text mode reads: "\r\n" and a lone '\r' each
   * become '\n' (universal newlines); every other character is kept.
   */
  function Universal(text: string): (r: string)
    ensures '\r' !in r
    ensures '\r' !in text ==> r == text
    decreases |text|
  {
    if text == [] then []
    else if text[0] == '\r' then
      if |text| > 1 && text[1] == '\n' then "\n" + Universal(text[2..]) else "\n" + Universal(text[1..])
    else
      assert text == [text[0]] + text[1..];
      [text[0]] + Universal(text[1..])
  }

  /** Text without a '\r' passes through unchanged, whatever follows it. */
  lemma {:induction false} UniversalPrefix(a: string, c: string)
    requires '\r' !in a
    ensures Universal(a + c) == a + Universal(c)
    decreases |a|
  {
    if a == [] {
      assert a + c == c;
    } else {
      var text := a + c;
      var x := a[0];
      assert x in a;
      assert text[0] == x && text[1..] == a[1..] + c;
      assert '\r' !in a[1..];
      UniversalPrefix(a[1..], c);
      var u := Universal(c);
      assert Universal(text) == [x] + (a[1..] + u);
      assert [x] + (a[1..] + u) == ([x] + a[1..]) + u;
      assert [x] + a[1..] == a;
    }
  }

  /** A Windows line end, "\r\n", reads as one newline. */
  lemma UniversalCrLf(a: string, b: string)
    requires '\r' !in a && '\r' !in b
    ensures Universal(a + "\r\n" + b) == a + "\n" + b
  {
    var tail := "\r\n" + b;
    assert a + "\r\n" + b == a + tail;
    UniversalPrefix(a, tail);
    assert tail[0] == '\r' && tail[1] == '\n' && tail[2..] == b;
    assert Universal(tail) == "\n" + b;
  }

  /** A lone '\r', as old Macs end lines, reads as a newline too. */
  lemma UniversalCr(a: string, b: string)
    requires '\r' !in a && '\r' !in b && (b == [] || b[0] != '\n')
    ensures Universal(a + "\r" + b) == a + "\n" + b
  {
    var tail := "\r" + b;
    assert a + "\r" + b == a + tail;
    UniversalPrefix(a, tail);
    assert tail[0] == '\r' && tail[1..] == b;
    assert |tail| == 1 || tail[1] != '\n';
    assert Universal(tail) == "\n" + b;
  }

  /** Length of the first line of `text`, its newline included (Python's file iteration). */
  function LineEnd(text: string): (n: nat)
    requires text != []
    ensures 0 < n <= |text|
    ensures '\n' !in text[..n - 1]
    ensures n < |text| ==> text[n - 1] == '\n'
  {
    if text[0] == '\n' || |text| == 1 then 1
    else
      var n := 1 + LineEnd(text[1..]);
      assert text[..n - 1] == [text[0]] + text[1..][..n - 2];
      n
  }

  /** The lines `for line in f` yields: each keeps its newline; the last one may lack it. */
  function Lines(text: string): (ls: seq<string>)
    ensures Concat(ls) == text
    decreases |text|
  {
    if text == [] then []
    else
      var n := LineEnd(text);
      [text[..n]] + Lines(text[n..])
  }

  /** The lines joined back together. */
  function Concat(ls: seq<string>): string {
    if ls == [] then "" else ls[0] + Concat(ls[1..])
  }

  /** A character the text lacks is in none of its lines. */
  lemma {:induction false} LinesKeepAbsence(text: string, c: char)
    requires c !in text
    ensures forall l :: l in Lines(text) ==> c !in l
    decreases |text|
  {
    if text != [] {
      var n := LineEnd(text);
      assert c !in text[n..];
      LinesKeepAbsence(text[n..], c);
      assert Lines(text) == [text[..n]] + Lines(text[n..]);
    }
  }

  lemma LineEndOfLine(s: string, rest: string)
    requires '\n' !in s
    ensures LineEnd(s + "\n" + rest) == |s| + 1
  {
    if s != [] {
      assert (s + "\n" + rest)[1..] == s[1..] + "\n" + rest;
      LineEndOfLine(s[1..], rest);
    }
  }

  /** Every line but the newline that ends it is free of newlines. */
  lemma LinesHaveNoInnerNewline(text: string)
    ensures forall l :: l in Lines(text) ==> l != [] && '\n' !in l[..|l| - 1]
    decreases |text|
  {
    if text != [] {
      LinesHaveNoInnerNewline(text[LineEnd(text)..]);
    }
  }

  // ----- read_env_file -----

  /**
   * What one stripped line contributes: nothing when it is empty, starts
   * with '#', or has no '='; otherwise the stripped text before the first
   * '=' as key and the stripped text after it as value.
   */
  function SplitEntry(line: string): (r: Option<(string, string)>)
    ensures r.None? <==> line == [] || StartsWith(line, "#") || '=' !in line
    ensures r.Some? ==> Trimmed(r.value.0) && Trimmed(r.value.1) && '=' !in r.value.0
  {
    if line == [] || StartsWith(line, "#") then None
    else match IndexOf(line, '=')
      case None => None
      case Some(i) =>
        StripIsTrimmed(line[..i]);
        StripIsTrimmed(line[i + 1..]);
        StripKeepsAbsence(line[..i], '=');
        Some((Strip(line[..i]), Strip(line[i + 1..])))
  }

  /** What one line of the file contributes, judged after `strip()`. */
  function ParseLine(raw: string): (r: Option<(string, string)>)
    ensures Strip(raw) == [] ==> r.None?
    ensures r.Some? ==> Trimmed(r.value.0) && Trimmed(r.value.1) && '=' !in r.value.0
  {
    SplitEntry(Strip(raw))
  }

  /** What each line contributes, in file order. */
  function Entries(lines: seq<string>): (r: seq<Option<(string, string)>>)
    ensures |r| == |lines|
  {
    if lines == [] then [] else [ParseLine(lines[0])] + Entries(lines[1..])
  }

  /** Folds the entries into `acc`, later keys overriding earlier ones in place. */
  function Merge(acc: EnvDict, entries: seq<Option<(string, string)>>): EnvDict
    decreases |entries|
  {
    if entries == [] then acc
    else
      var next := match entries[0]
        case None => acc
        case Some(kv) => Put(acc, kv.0, kv.1);
      Merge(next, entries[1..])
  }

  /** The dict `read_env_file` returns for the file's content (None: no file). */
  function ReadEnv(file: Option<string>): (r: EnvDict)
    ensures file.None? ==> r == []
    ensures DistinctKeys(r)
  {
    match file
    case None => []
    case Some(text) =>
      var entries := Entries(Lines(Universal(text)));
      MergeDistinct([], entries);
      Merge([], entries)
  }

  /** Folding entries into a dict with distinct keys keeps them distinct. */
  lemma {:induction false} MergeDistinct(acc: EnvDict, entries: seq<Option<(string, string)>>)
    requires DistinctKeys(acc)
    ensures DistinctKeys(Merge(acc, entries))
    decreases |entries|
  {
    if entries != [] {
      if entries[0].Some? {
        PutKeys(acc, entries[0].value.0, entries[0].value.1);
        MergeDistinct(Put(acc, entries[0].value.0, entries[0].value.1), entries[1..]);
      } else {
        MergeDistinct(acc, entries[1..]);
      }
    }
  }

  /** read_env_file, line by line. */
  method ReadEnvFile(file: Option<string>) returns (result: EnvDict)
    ensures result == ReadEnv(file)
    ensures DistinctKeys(result)
  {
    result := [];
    if file.None? {
      return;
    }
    var lines := Lines(Universal(file.value));
    var i := 0;
    while i < |lines|
      invariant 0 <= i <= |lines|
      invariant DistinctKeys(result)
      invariant Merge(result, Entries(lines[i..])) == ReadEnv(file)
    {
      assert lines[i..][1..] == lines[i + 1..];
      var kv := ParseLine(lines[i]);
      if kv.Some? {
        PutKeys(result, kv.value.0, kv.value.1);
        result := Put(result, kv.value.0, kv.value.1);
      }
      i := i + 1;
    }
  }

  // ----- write_env_file -----

  function EnvLine(k: string, v: string): string {
    k + "=" + v + "\n"
  }

  /** The text `write_env_file` writes: one `k=v` line per entry, in dict order. */
  function Serialize(d: EnvDict): (text: string)
    ensures (forall i :: 0 <= i < |d| ==> '\r' !in d[i].0 && '\r' !in d[i].1) ==> '\r' !in text
  {
    if d == [] then ""
    else
      assert forall i :: 0 <= i < |d[1..]| ==> d[1..][i] == d[i + 1];
      EnvLine(d[0].0, d[0].1) + Serialize(d[1..])
  }

  /** write_env_file, entry by entry. */
  method WriteEnvFile(values: EnvDict) returns (text: string)
    ensures text == Serialize(values)
  {
    text := "";
    var i := 0;
    while i < |values|
      invariant 0 <= i <= |values|
      invariant text + Serialize(values[i..]) == Serialize(values)
    {
      assert values[i..][1..] == values[i + 1..];
      var (k, v) := values[i];
      text := text + EnvLine(k, v);
      i := i + 1;
    }
    assert values[i..] == [];
  }

  // ----- The round trip -----

  /** An entry that survives being written and read back unchanged. */
  predicate Writable(k: string, v: string) {
    && Trimmed(k) && Trimmed(v)
    && '=' !in k && '\n' !in k && '\n' !in v && '\r' !in k && '\r' !in v
    && !StartsWith(k, "#")
  }

  predicate AllWritable(d: EnvDict) {
    forall i :: 0 <= i < |d| ==> Writable(d[i].0, d[i].1)
  }

  /** The lines of the written file, one per entry. */
  function EnvLines(d: EnvDict): seq<string> {
    if d == [] then [] else [EnvLine(d[0].0, d[0].1)] + EnvLines(d[1..])
  }

  lemma {:induction false} LinesOfSerialize(d: EnvDict)
    requires AllWritable(d)
    ensures Lines(Serialize(d)) == EnvLines(d)
  {
    if d != [] {
      var (k, v) := d[0];
      assert '\n' !in k + "=" + v;
      LineEndOfLine(k + "=" + v, Serialize(d[1..]));
      assert Serialize(d) == k + "=" + v + "\n" + Serialize(d[1..]);
      assert Serialize(d)[LineEnd(Serialize(d))..] == Serialize(d[1..]);
      LinesOfSerialize(d[1..]);
    }
  }

  /** In `k=v` with no '=' in `k`, the first '=' is the one after `k`. */
  lemma FirstEquals(k: string, v: string)
    requires '=' !in k
    ensures IndexOf(k + "=" + v, '=') == Some(|k|)
  {
    var body := k + "=" + v;
    assert body[|k|] == '=';
    var i := IndexOf(body, '=').value;
    assert body[..|k|] == k;
  }

  lemma StripEnvLine(k: string, v: string)
    requires Writable(k, v)
    ensures Strip(EnvLine(k, v)) == k + "=" + v
  {
    var body := k + "=" + v;
    assert Trimmed(body) by {
      assert body[0] == if k == [] then '=' else k[0];
      assert body[|body| - 1] == if v == [] then '=' else v[|v| - 1];
    }
    StripTrailingSpace(body, "\n");
    assert EnvLine(k, v) == body + "\n";
  }

  /** A written line starts with its key, so it is no comment when the key is none. */
  lemma WrittenNotComment(k: string, v: string)
    requires !StartsWith(k, "#")
    ensures !StartsWith(k + "=" + v, "#")
  {
    StartsWithChar(k, '#');
    StartsWithChar(k + "=" + v, '#');
    assert (k + "=" + v)[0] == if k == [] then '=' else k[0];
  }

  lemma SplitWritten(k: string, v: string)
    requires Writable(k, v)
    ensures SplitEntry(k + "=" + v) == Some((k, v))
  {
    var body := k + "=" + v;
    WrittenNotComment(k, v);
    FirstEquals(k, v);
    SplitEntryParts(body, |k|);
    assert body[..|k|] == k;
    assert body[|k| + 1..] == v;
    StripTrimmed(k);
    StripTrimmed(v);
  }

  /** A line write_env_file wrote parses back to its own key and value. */
  lemma ParseEnvLine(k: string, v: string)
    requires Writable(k, v)
    ensures ParseLine(EnvLine(k, v)) == Some((k, v))
  {
    StripEnvLine(k, v);
    SplitWritten(k, v);
  }

  /** Moving the first entry of `d` into `acc` keeps the two key sets apart. */
  lemma ShiftEntry(acc: EnvDict, d: EnvDict)
    requires d != [] && DistinctKeys(d) && Keys(acc) !! Keys(d)
    ensures Put(acc, d[0].0, d[0].1) == acc + [d[0]]
    ensures Keys(acc + [d[0]]) !! Keys(d[1..])
    ensures DistinctKeys(d[1..])
  {
    var (k, v) := d[0];
    PutNew(acc, k, v);
    KeysAppend(acc, [(k, v)]);
    assert Keys([(k, v)]) == {k};
  }

  lemma TailWritable(d: EnvDict)
    requires d != [] && AllWritable(d)
    ensures AllWritable(d[1..])
  {
    forall i | 0 <= i < |d[1..]| ensures Writable(d[1..][i].0, d[1..][i].1) {
      assert d[1..][i] == d[i + 1];
    }
  }

  /** The entries a dict contributes when every line parses. */
  function Present(d: EnvDict): (r: seq<Option<(string, string)>>)
    ensures |r| == |d|
  {
    if d == [] then [] else [Some(d[0])] + Present(d[1..])
  }

  lemma {:induction false} EntriesOfEnvLines(d: EnvDict)
    requires AllWritable(d)
    ensures Entries(EnvLines(d)) == Present(d)
  {
    if d != [] {
      ParseEnvLine(d[0].0, d[0].1);
      TailWritable(d);
      EntriesOfEnvLines(d[1..]);
      assert EnvLines(d)[1..] == EnvLines(d[1..]);
    }
  }

  /** Merging a dict's entries starts by appending its first entry, when that key is new. */
  lemma MergeFirst(acc: EnvDict, d: EnvDict)
    requires d != [] && Put(acc, d[0].0, d[0].1) == acc + [d[0]]
    ensures Merge(acc, Present(d)) == Merge(acc + [d[0]], Present(d[1..]))
  {
    var entries := Present(d);
    assert entries[0] == Some(d[0]) && entries[1..] == Present(d[1..]);
  }

  lemma AppendFirst<T>(acc: seq<T>, d: seq<T>)
    requires d != []
    ensures (acc + [d[0]]) + d[1..] == acc + d
  {
    assert [d[0]] + d[1..] == d;
  }

  lemma {:induction false} MergePresent(acc: EnvDict, d: EnvDict)
    requires DistinctKeys(d) && Keys(acc) !! Keys(d)
    ensures Merge(acc, Present(d)) == acc + d
    decreases |d|
  {
    if d != [] {
      var e := d[0];
      ShiftEntry(acc, d);
      MergeFirst(acc, d);
      MergePresent(acc + [e], d[1..]);
      AppendFirst(acc, d);
    }
  }

  /** Reading back what write_env_file wrote gives the same dict, when every entry is writable. */
  lemma {:induction false} WriteThenRead(d: EnvDict)
    requires AllWritable(d) && DistinctKeys(d)
    ensures ReadEnv(Some(Serialize(d))) == d
  {
    assert Universal(Serialize(d)) == Serialize(d);
    LinesOfSerialize(d);
    EntriesOfEnvLines(d);
    MergePresent([], d);
  }

  /**
   * Why a value may not hold a '\r': an entry `k` = `a + "\r" + b` is
   * written as one line, but reads back as two, "k=a" and "b", so only
   * `k` = `a` comes back (when `b` is no entry of its own).
   */
  lemma CarriageReturnSplitsValue(k: string, a: string, b: string)
    requires Writable(k, a) && BareWord(b)
    ensures !Writable(k, a + "\r" + b)
    ensures ReadEnv(Some(Serialize([(k, a + "\r" + b)]))) == [(k, a)]
  {
    var text := Serialize([(k, a + "\r" + b)]);
    SplitByCarriageReturn(k, a, b);
    SecondLineOnly(k, a, b);
    ParseEnvLine(k, a);
    BareLineSkipped(b);
    EntriesOfTwo(EnvLine(k, a), b + "\n");
    MergeOneOfTwo((k, a));
    assert (a + "\r" + b)[|a|] == '\r';
  }

  /** The written entry, read in text mode, is the line "k=a" followed by the line "b". */
  lemma SplitByCarriageReturn(k: string, a: string, b: string)
    requires Writable(k, a) && BareWord(b)
    ensures Universal(Serialize([(k, a + "\r" + b)])) == EnvLine(k, a) + (b + "\n")
  {
    var first := k + "=" + a;
    assert [(k, a + "\r" + b)][1..] == [];
    assert Serialize([(k, a + "\r" + b)]) == first + "\r" + (b + "\n");
    UniversalCr(first, b + "\n");
    assert first + "\n" + (b + "\n") == EnvLine(k, a) + (b + "\n");
  }

  /** What two lines contribute, in order. */
  lemma EntriesOfTwo(l1: string, l2: string)
    ensures Entries([l1, l2]) == [ParseLine(l1), ParseLine(l2)]
  {
    assert [l1, l2][1..] == [l2] && [l2][1..] == [];
  }

  /** An entry followed by a skipped line reads as that entry alone. */
  lemma MergeOneOfTwo(kv: (string, string))
    ensures Merge([], [Some(kv), None]) == [kv]
  {
    var e: seq<Option<(string, string)>> := [Some(kv), None];
    var acc := Put([], kv.0, kv.1);
    assert acc == [kv];
    assert e[1..] == [None] && e[1..][1..] == [];
    assert Merge([], e) == Merge(acc, [None]);
    assert Merge(acc, [None]) == Merge(acc, []);
  }

  /** A word with no space, newline, '=' or leading '#'. */
  predicate BareWord(b: string) {
    && b != [] && Trimmed(b) && !StartsWith(b, "#")
    && '=' !in b && '\n' !in b && '\r' !in b
  }

  /** A newline-free line and its newline come first among the lines. */
  lemma LinesCons(s: string, rest: string)
    requires '\n' !in s
    ensures Lines(s + "\n" + rest) == [s + "\n"] + Lines(rest)
  {
    var text := s + "\n" + rest;
    LineEndOfLine(s, rest);
    assert text[..|s| + 1] == s + "\n";
    assert text[|s| + 1..] == rest;
  }

  /** A written line followed by a bare word and a newline splits into those two lines. */
  lemma SecondLineOnly(k: string, a: string, b: string)
    requires Writable(k, a) && BareWord(b)
    ensures Lines(EnvLine(k, a) + (b + "\n")) == [EnvLine(k, a), b + "\n"]
  {
    assert '\n' !in k + "=" + a;
    assert EnvLine(k, a) + (b + "\n") == (k + "=" + a) + "\n" + (b + "\n");
    LinesCons(k + "=" + a, b + "\n");
    assert b + "\n" == b + "\n" + "";
    LinesCons(b, "");
  }

  /** A bare word on its own line contributes nothing. */
  lemma BareLineSkipped(b: string)
    requires BareWord(b)
    ensures ParseLine(b + "\n") == None
  {
    StripTrailingSpace(b, "\n");
    StartsWithChar(b, '#');
  }

  /** Every entry read from lines of a file is writable. */
  predicate EntriesWritable(entries: seq<Option<(string, string)>>) {
    entries == [] ||
    ((entries[0].Some? ==> Writable(entries[0].value.0, entries[0].value.1)) && EntriesWritable(entries[1..]))
  }

  lemma {:induction false} LinesGiveWritable(lines: seq<string>)
    requires forall l :: l in lines ==> l != [] && '\n' !in l[..|l| - 1] && '\r' !in l
    ensures EntriesWritable(Entries(lines))
  {
    if lines != [] {
      if ParseLine(lines[0]).Some? {
        ParsedLineWritable(lines[0]);
      }
      assert forall l :: l in lines[1..] ==> l in lines;
      LinesGiveWritable(lines[1..]);
      assert Entries(lines)[1..] == Entries(lines[1..]);
    }
  }

  /** Merging writable entries keeps the dict writable and its keys distinct. */
  lemma {:induction false} MergeWritable(acc: EnvDict, entries: seq<Option<(string, string)>>)
    requires AllWritable(acc) && DistinctKeys(acc) && EntriesWritable(entries)
    ensures AllWritable(Merge(acc, entries)) && DistinctKeys(Merge(acc, entries))
    decreases |entries|
  {
    if entries != [] {
      var next := acc;
      if entries[0].Some? {
        var (k, v) := entries[0].value;
        PutKeepsWritable(acc, k, v);
        PutKeys(acc, k, v);
        next := Put(acc, k, v);
      }
      MergeWritable(next, entries[1..]);
    }
  }

  /** Every entry read_env_file produces is writable, and the keys are distinct. */
  lemma ReadIsWritable(file: Option<string>)
    ensures AllWritable(ReadEnv(file)) && DistinctKeys(ReadEnv(file))
  {
    if file.Some? {
      var text := Universal(file.value);
      LinesHaveNoInnerNewline(text);
      LinesKeepAbsence(text, '\r');
      LinesGiveWritable(Lines(text));
      MergeWritable([], Entries(Lines(text)));
    }
  }

  /** A line of the file, once stripped, holds no newline. */
  lemma StrippedLineHasNoNewline(raw: string)
    requires raw != [] && '\n' !in raw[..|raw| - 1]
    ensures '\n' !in Strip(raw)
  {
    LeftKeepsLine(raw);
    if StripLeft(raw) != [] {
      RightDropsNewline(StripLeft(raw));
    }
  }

  /** `lstrip()` of a line keeps it a line: a newline can only be its last character. */
  lemma {:induction false} LeftKeepsLine(s: string)
    requires s != [] && '\n' !in s[..|s| - 1]
    ensures StripLeft(s) == [] || '\n' !in StripLeft(s)[..|StripLeft(s)| - 1]
    decreases |s|
  {
    if IsSpace(s[0]) && |s| > 1 {
      var t := s[1..];
      assert t[..|t| - 1] == s[..|s| - 1][1..];
      LeftKeepsLine(t);
    }
  }

  /** `rstrip()` of a line drops its newline along with the other trailing space. */
  lemma {:induction false} RightDropsNewline(s: string)
    requires s != [] && '\n' !in s[..|s| - 1]
    ensures '\n' !in StripRight(s)
    decreases |s|
  {
    var last := s[|s| - 1];
    var t := s[..|s| - 1];
    if IsSpace(last) {
      if t != [] {
        assert t[..|t| - 1] == s[..|s| - 2];
        assert '\n' !in s[..|s| - 2] by { assert s[..|s| - 2] == t[..|t| - 1] && t[..|t| - 1] <= t; }
        RightDropsNewline(t);
      }
    } else {
      NotSpaceNotNewline(last);
      assert s == t + [last];
    }
  }

  /** A character `strip()` keeps at the end of a line is no newline. */
  lemma NotSpaceNotNewline(c: char)
    requires !IsSpace(c)
    ensures c != '\n'
  {
  }

  /** The key of a line that does not start with '#' does not either. */
  lemma KeyNotComment(line: string, i: nat)
    requires Trimmed(line) && i <= |line| && !StartsWith(line, "#")
    ensures !StartsWith(Strip(line[..i]), "#")
  {
    var key := Strip(line[..i]);
    StartsWithChar(line, '#');
    StartsWithChar(key, '#');
    if key != [] {
      assert line[..i] != [];
      assert line[..i][0] == line[0];
      StripKeepsFirst(line[..i]);
    }
  }

  /** The key of a stripped line, cut before its first '=', survives the file format. */
  lemma KeyWritable(line: string, i: nat)
    requires Trimmed(line) && '\n' !in line && '\r' !in line && !StartsWith(line, "#")
    requires i <= |line| && '=' !in line[..i]
    ensures Trimmed(Strip(line[..i])) && '=' !in Strip(line[..i]) && '\n' !in Strip(line[..i]) && '\r' !in Strip(line[..i])
    ensures !StartsWith(Strip(line[..i]), "#")
  {
    assert '\n' !in line[..i] && '\r' !in line[..i];
    StripIsTrimmed(line[..i]);
    StripKeepsAbsence(line[..i], '=');
    StripKeepsAbsence(line[..i], '\n');
    StripKeepsAbsence(line[..i], '\r');
    KeyNotComment(line, i);
  }

  /** The value of a newline-free line, after its first '=', survives the file format. */
  lemma ValueWritable(line: string, i: nat)
    requires '\n' !in line && '\r' !in line && i < |line|
    ensures Trimmed(Strip(line[i + 1..])) && '\n' !in Strip(line[i + 1..]) && '\r' !in Strip(line[i + 1..])
  {
    assert '\n' !in line[i + 1..] && '\r' !in line[i + 1..];
    StripIsTrimmed(line[i + 1..]);
    StripKeepsAbsence(line[i + 1..], '\n');
    StripKeepsAbsence(line[i + 1..], '\r');
  }

  /** A contributing line's entry is the stripped text on either side of its first '='. */
  lemma SplitEntryParts(line: string, i: nat)
    requires line != [] && !StartsWith(line, "#") && IndexOf(line, '=') == Some(i)
    ensures SplitEntry(line) == Some((Strip(line[..i]), Strip(line[i + 1..])))
  {
  }

  /** Both sides of an '=' in a stripped, newline-free, non-comment line survive the file format. */
  lemma EntryPartsWritable(line: string, i: nat)
    requires Trimmed(line) && '\n' !in line && '\r' !in line && !StartsWith(line, "#")
    requires i < |line| && '=' !in line[..i]
    ensures Writable(Strip(line[..i]), Strip(line[i + 1..]))
  {
    KeyWritable(line, i);
    ValueWritable(line, i);
  }

  /** What a stripped, newline-free line contributes is writable. */
  lemma SplitEntryWritable(line: string)
    requires Trimmed(line) && '\n' !in line && '\r' !in line
    requires SplitEntry(line).Some?
    ensures Writable(SplitEntry(line).value.0, SplitEntry(line).value.1)
  {
    var i := IndexOf(line, '=').value;
    SplitEntryParts(line, i);
    assert i < |line| && '=' !in line[..i];
    EntryPartsWritable(line, i);
  }

  lemma ParsedLineWritable(raw: string)
    requires raw != [] && '\n' !in raw[..|raw| - 1] && '\r' !in raw
    ensures ParseLine(raw).Some? ==> Writable(ParseLine(raw).value.0, ParseLine(raw).value.1)
  {
    if ParseLine(raw).Some? {
      StrippedLineHasNoNewline(raw);
      StripKeepsAbsence(raw, '\r');
      StripIsTrimmed(raw);
      SplitEntryWritable(Strip(raw));
    }
  }

  lemma PutKeepsWritable(d: EnvDict, k: string, v: string)
    requires AllWritable(d) && Writable(k, v)
    ensures AllWritable(Put(d, k, v))
  {
    if d != [] && d[0].0 != k {
      PutKeepsWritable(d[1..], k, v);
    }
  }

  /**
   * Reading the file, writing the dict back and reading it again gives what
   * the first read gave: a read-modify-write of the `.env` file keeps every
   * entry it did not touch.
   */
  lemma ReadWriteRead(file: Option<string>)
    ensures ReadEnv(Some(Serialize(ReadEnv(file)))) == ReadEnv(file)
  {
    ReadIsWritable(file);
    WriteThenRead(ReadEnv(file));
  }

  /** Writing one key into what was read, then reading again, shows exactly that change. */
  lemma UpdateThenRead(file: Option<string>, k: string, v: string)
    requires Writable(k, v)
    ensures ReadEnv(Some(Serialize(Put(ReadEnv(file), k, v)))) == Put(ReadEnv(file), k, v)
  {
    ReadIsWritable(file);
    PutKeepsWritable(ReadEnv(file), k, v);
    PutKeys(ReadEnv(file), k, v);
    WriteThenRead(Put(ReadEnv(file), k, v));
  }

  // ----- prompt_for_values -----

  datatype ConfigItem = ConfigItem(name: string, description: string, default: string)

  /**
   * The value kept for one item: the answer typed, or when it is empty the
   * current value (the existing entry, else the item's default).
   */
  function Chosen(item: ConfigItem, existing: EnvDict, answer: string): (r: string)
    ensures answer != "" ==> r == answer
    ensures answer == "" && item.name in Keys(existing) ==> Some(r) == Get(existing, item.name)
    ensures answer == "" && item.name !in Keys(existing) ==> r == item.default
  {
    var current := Get(existing, item.name).GetOr(item.default);
    if answer == "" then current else answer
  }

  function PromptInto(acc: EnvDict, items: seq<ConfigItem>, existing: EnvDict, answers: seq<string>): EnvDict
    requires |answers| == |items|
    decreases |items|
  {
    if items == [] then acc
    else PromptInto(Put(acc, items[0].name, Chosen(items[0], existing, answers[0])), items[1..], existing, answers[1..])
  }

  /**
   * prompt_for_values: one prompt per item, in order; `answers[i]` is what
   * the user typed at the i-th prompt (the terminal is not modelled).
   */
  method PromptForValues(items: seq<ConfigItem>, existing: EnvDict, answers: seq<string>)
    returns (results: EnvDict)
    requires |answers| == |items|
    ensures results == PromptInto([], items, existing, answers)
  {
    results := [];
    var i := 0;
    while i < |items|
      invariant 0 <= i <= |items|
      invariant PromptInto(results, items[i..], existing, answers[i..]) == PromptInto([], items, existing, answers)
    {
      assert items[i..][1..] == items[i + 1..];
      assert answers[i..][1..] == answers[i + 1..];
      results := Put(results, items[i].name, Chosen(items[i], existing, answers[i]));
      i := i + 1;
    }
  }

  /** The names of the items. */
  function Names(items: seq<ConfigItem>): set<string> {
    if items == [] then {} else {items[0].name} + Names(items[1..])
  }

  /** No two items share a name. */
  predicate DistinctNames(items: seq<ConfigItem>) {
    items == [] || (items[0].name !in Names(items[1..]) && DistinctNames(items[1..]))
  }

  /** One entry per item, in item order, holding the value chosen for it. */
  function Picked(items: seq<ConfigItem>, existing: EnvDict, answers: seq<string>): (r: EnvDict)
    requires |answers| == |items|
    ensures |r| == |items|
  {
    if items == [] then []
    else [(items[0].name, Chosen(items[0], existing, answers[0]))] + Picked(items[1..], existing, answers[1..])
  }

  /** Storing a new key appends it, and its key joins the key set. */
  lemma AppendNewKey(acc: EnvDict, k: string, v: string)
    requires k !in Keys(acc)
    ensures Put(acc, k, v) == acc + [(k, v)]
    ensures Keys(acc + [(k, v)]) == Keys(acc) + {k}
  {
    PutNew(acc, k, v);
    KeysAppend(acc, [(k, v)]);
    assert Keys([(k, v)]) == {k};
  }

  /** Storing the first item's name into `acc` appends it, and the other names stay new. */
  lemma PromptFrame(acc: EnvDict, items: seq<ConfigItem>, v: string)
    requires items != [] && DistinctNames(items) && Names(items) !! Keys(acc)
    ensures Put(acc, items[0].name, v) == acc + [(items[0].name, v)]
    ensures DistinctNames(items[1..]) && Names(items[1..]) !! Keys(acc + [(items[0].name, v)])
  {
    AppendNewKey(acc, items[0].name, v);
    assert Names(items) == {items[0].name} + Names(items[1..]);
  }

  /** With distinct item names new to `acc`, prompting appends one entry per item, in item order. */
  lemma {:induction false} PromptedEntries(acc: EnvDict, items: seq<ConfigItem>, existing: EnvDict, answers: seq<string>)
    requires |answers| == |items| && DistinctNames(items) && Names(items) !! Keys(acc)
    ensures PromptInto(acc, items, existing, answers) == acc + Picked(items, existing, answers)
    decreases |items|
  {
    if items != [] {
      var entry := (items[0].name, Chosen(items[0], existing, answers[0]));
      PromptFrame(acc, items, entry.1);
      assert PromptInto(acc, items, existing, answers) == PromptInto(acc + [entry], items[1..], existing, answers[1..]);
      PromptedEntries(acc + [entry], items[1..], existing, answers[1..]);
      var rest := Picked(items[1..], existing, answers[1..]);
      assert Picked(items, existing, answers) == [entry] + rest;
      assert acc + [entry] + rest == acc + ([entry] + rest);
    }
  }

  /** With distinct item names, prompt_for_values returns exactly one entry per item, in item order. */
  lemma PromptedValues(items: seq<ConfigItem>, existing: EnvDict, answers: seq<string>)
    requires |answers| == |items| && DistinctNames(items)
    ensures PromptInto([], items, existing, answers) == Picked(items, existing, answers)
  {
    PromptedEntries([], items, existing, answers);
    assert [] + Picked(items, existing, answers) == Picked(items, existing, answers);
  }

  // ----- ConfigSection.setup_service -----

  datatype ConfigSection = ConfigSection(active: bool, useDocker: bool, supportsDocker: bool)

  /** Which of the section's two setup callbacks `setup_service` invokes. */
  datatype SetupCall = DockerSetup | Setup

  function SetupService(section: ConfigSection): (call: SetupCall)
    ensures call == DockerSetup <==> section.useDocker
    ensures call == Setup <==> !section.useDocker
  {
    if section.useDocker then DockerSetup else Setup
  }
}
