/**
 * The `server.properties` store (`ConfigManager`): a parser from file lines to
 * an insertion-ordered key/value map, and the merge-and-rewrite that saves the
 * map back, replacing known key lines in place, keeping every other line
 * verbatim and appending the keys the file did not have.
 *
 * File contents are the lines Python's `for line in f` yields (each keeps its
 * trailing newline); `FileLines` and `Concat` relate them to the file text,
 * which text mode reads with universal newlines (`Translate`).
 */
module Config {
  import opened Wrappers
  import opened Text

  datatype Property = Property(key: string, value: string)

  /** A Python dict of strings: its items in insertion order. */
  type Props = seq<Property>

  /** A dict holds each key once. */
  predicate UniqueKeys(m: Props) {
    forall i, j :: 0 <= i < j < |m| ==> m[i].key != m[j].key
  }

  /** The keys in insertion order (`list(d)`). */
  function Keys(m: Props): seq<string> {
    seq(|m|, i requires 0 <= i < |m| => m[i].key)
  }

  /** The position of `k`, or `|m|` when it is absent. */
  function IndexOfKey(m: Props, k: string): (i: nat)
    ensures i <= |m|
    ensures i < |m| ==> m[i].key == k
    ensures forall j :: 0 <= j < i ==> m[j].key != k
  {
    if m == [] || m[0].key == k then 0 else 1 + IndexOfKey(m[1..], k)
  }

  /** `d.get(k)`. */
  function Get(m: Props, k: string): (r: Option<string>)
    ensures r.Some? <==> exists i :: 0 <= i < |m| && m[i].key == k
    ensures UniqueKeys(m) ==> forall i :: 0 <= i < |m| && m[i].key == k ==> r == Some(m[i].value)
  {
    var i := IndexOfKey(m, k);
    if i < |m| then Some(m[i].value) else None
  }

  /** Looking a key up after one more item: earlier items win, as no dict holds a key twice. */
  lemma GetSnoc(m: Props, p: Property, k: string)
    ensures Get(m + [p], k) == if Get(m, k).Some? then Get(m, k) else if p.key == k then Some(p.value) else None
  {
    var i := IndexOfKey(m, k);
    var j := IndexOfKey(m + [p], k);
    assert forall t :: 0 <= t < |m| ==> (m + [p])[t] == m[t];
    if i < |m| {
      assert j == i;
    } else if p.key == k {
      assert (m + [p])[|m|] == p;
      assert j == |m|;
    } else {
      assert (m + [p])[|m|] == p;
    }
  }

  /** `d[k] = v`: an existing key keeps its place and takes the new value, a new key goes last. */
  function Put(m: Props, k: string, v: string): (r: Props)
    ensures Get(r, k) == Some(v)
    ensures forall k' :: k' != k ==> Get(r, k') == Get(m, k')
    ensures UniqueKeys(m) ==> UniqueKeys(r)
    ensures Keys(r) == if Get(m, k).Some? then Keys(m) else Keys(m) + [k]
  {
    var i := IndexOfKey(m, k);
    if i < |m| then
      var r := m[i := Property(k, v)];
      assert Keys(r) == Keys(m);
      assert forall k' :: IndexOfKey(r, k') == IndexOfKey(m, k') by {
        forall k' ensures IndexOfKey(r, k') == IndexOfKey(m, k') {
          var a, b := IndexOfKey(r, k'), IndexOfKey(m, k');
          assert forall j :: 0 <= j < |m| ==> r[j].key == m[j].key;
        }
      }
      r
    else
      var r := m + [Property(k, v)];
      GetSnoc(m, Property(k, v), k);
      assert forall k' :: Get(r, k') == Get(m + [Property(k, v)], k');
      assert forall k' :: k' != k ==> Get(r, k') == Get(m, k') by {
        forall k' | k' != k ensures Get(r, k') == Get(m, k') {
          GetSnoc(m, Property(k, v), k');
        }
      }
      assert Keys(r) == Keys(m) + [k];
      r
  }

  /** `d.update(n)`: the items of `n` put in turn. */
  function Update(m: Props, n: Props): (r: Props)
    ensures UniqueKeys(m) ==> UniqueKeys(r)
  {
    if n == [] then m else Put(Update(m, n[..|n| - 1]), n[|n| - 1].key, n[|n| - 1].value)
  }

  /** The keys of `n` that `m` lacks, in `n`'s order. */
  function NewKeys(m: Props, n: Props): seq<string> {
    if n == [] then []
    else NewKeys(m, n[..|n| - 1]) + (if Get(m, n[|n| - 1].key).None? then [n[|n| - 1].key] else [])
  }

  /** A key is new exactly when `n` holds it and `m` does not. */
  lemma {:induction false} NewKeysSpec(m: Props, n: Props, k: string)
    ensures k in NewKeys(m, n) <==> Get(n, k).Some? && Get(m, k).None?
  {
    if n != [] {
      var front, last := n[..|n| - 1], n[|n| - 1];
      assert n == front + [last];
      NewKeysSpec(m, front, k);
      GetSnoc(front, last, k);
    }
  }

  /**
   * The key order after `m.update(n)`: the keys of `m` keep their places and
   * the keys of `n` that `m` lacked follow, in `n`'s order.
   */
  lemma {:induction false} UpdateKeys(m: Props, n: Props)
    requires UniqueKeys(n)
    ensures Keys(Update(m, n)) == Keys(m) + NewKeys(m, n)
  {
    if n != [] {
      var front, last := n[..|n| - 1], n[|n| - 1];
      var extra := if Get(m, last.key).None? then [last.key] else [];
      LastKeyIsNew(n);
      UpdateKeys(m, front);
      UpdateKeysStep(m, n);
      assert NewKeys(m, n) == NewKeys(m, front) + extra;
      assert Keys(Update(m, n)) == (Keys(m) + NewKeys(m, front)) + extra;
    }
  }

  /** One more item of `n`: its key joins the key order exactly when `m` lacked it. */
  lemma UpdateKeysStep(m: Props, n: Props)
    requires n != [] && UniqueKeys(n)
    ensures Keys(Update(m, n)) ==
      Keys(Update(m, n[..|n| - 1])) + if Get(m, n[|n| - 1].key).None? then [n[|n| - 1].key] else []
  {
    var front, last := n[..|n| - 1], n[|n| - 1];
    var u := Update(m, front);
    LastKeyIsNew(n);
    UpdateGet(m, front, last.key);
    assert Get(u, last.key) == Get(m, last.key);
    assert Update(m, n) == Put(u, last.key, last.value);
  }

  /** In a dict without repeated keys, the items before the last have unique keys and none of them is the last key. */
  lemma LastKeyIsNew(n: Props)
    requires n != [] && UniqueKeys(n)
    ensures UniqueKeys(n[..|n| - 1])
    ensures Get(n[..|n| - 1], n[|n| - 1].key).None?
  {
    var front := n[..|n| - 1];
    assert forall i :: 0 <= i < |front| ==> front[i] == n[i];
  }

  /** After `m.update(n)` a key of `n` has its value from `n`; every other key keeps its value from `m`. */
  lemma {:induction false} UpdateGet(m: Props, n: Props, k: string)
    requires UniqueKeys(n)
    ensures Get(Update(m, n), k) == if Get(n, k).Some? then Get(n, k) else Get(m, k)
  {
    if n != [] {
      var front, last := n[..|n| - 1], n[|n| - 1];
      assert n == front + [last];
      UpdateGet(m, front, k);
      GetSnoc(front, last, k);
      assert forall i :: 0 <= i < |front| ==> front[i].key != last.key by {
        forall i | 0 <= i < |front| ensures front[i].key != last.key {
          assert n[i] == front[i];
        }
      }
    }
  }

  // ---------------------------------------------------------------- parsing

  /**
   * What `load_config` makes of one line: nothing for a line that is blank or
   * a `#` comment once stripped, or that has no `=`; otherwise the stripped
   * text before the first `=` as key and the stripped rest (which may hold
   * more `=`) as value.
   */
  function ParseLine(line: string): (r: Option<Property>)
  {
    var s := Strip(line);
    if s != [] && s[0] != '#' && '=' in s then
      var i := Find(s, '=');
      Some(Property(Strip(s[..i]), Strip(s[i + 1..])))
    else
      None
  }

  /**
   * `ParseLine` skips exactly the blank, comment and `=`-less lines, and
   * otherwise splits the stripped line at its first `=`.
   */
  lemma ParseLineSplitsAtFirstEquals(line: string)
    ensures var s := Strip(line);
      ParseLine(line).None? <==> s == [] || s[0] == '#' || '=' !in s
    ensures var s := Strip(line);
      ParseLine(line).Some? ==>
        exists i :: 0 <= i < |s| && s[i] == '=' && '=' !in s[..i] &&
          ParseLine(line).value == Property(Strip(s[..i]), Strip(s[i + 1..]))
  {
    var s := Strip(line);
    if ParseLine(line).Some? {
      var i := Find(s, '=');
      assert '=' !in s[..i];
    }
  }

  /** The key `save_config` sees on a line: the key `load_config` would read from it. */
  function KeyOf(line: string): Option<string> {
    match ParseLine(line)
    case Some(p) => Some(p.key)
    case None => None
  }

  /** The map `load_config` builds from the file's lines. */
  function LoadLines(lines: seq<string>): (m: Props)
    ensures UniqueKeys(m)
  {
    if lines == [] then []
    else
      var m := LoadLines(lines[..|lines| - 1]);
      match ParseLine(lines[|lines| - 1])
      case Some(p) => Put(m, p.key, p.value)
      case None => m
  }

  /** A blank, comment or `=`-less line adds nothing to the loaded map. */
  lemma LoadSkipsLine(lines: seq<string>, line: string)
    requires Strip(line) == [] || Strip(line)[0] == '#' || '=' !in Strip(line)
    ensures LoadLines(lines + [line]) == LoadLines(lines)
  {
    assert (lines + [line])[..|lines|] == lines;
  }

  /** A key no line carries is absent from the loaded map (a missing or empty file gives `{}`). */
  lemma {:induction false} LoadKeyAbsent(lines: seq<string>, k: string)
    requires forall i :: 0 <= i < |lines| ==> KeyOf(lines[i]) != Some(k)
    ensures Get(LoadLines(lines), k).None?
  {
    if lines != [] {
      LoadKeyAbsent(lines[..|lines| - 1], k);
    }
  }

  /** When several lines carry a key, the last of them gives its value. */
  lemma {:induction false} LoadLastLineWins(lines: seq<string>, k: string, i: nat)
    requires i < |lines| && KeyOf(lines[i]) == Some(k)
    requires forall j :: i < j < |lines| ==> KeyOf(lines[j]) != Some(k)
    ensures Get(LoadLines(lines), k) == Some(ParseLine(lines[i]).value.value)
  {
    var front := lines[..|lines| - 1];
    if i < |lines| - 1 {
      LoadLastLineWins(front, k, i);
    }
  }

  /** Loading a concatenation: the later lines' value for a key wins over the earlier lines'. */
  lemma {:induction false} LoadAppend(a: seq<string>, b: seq<string>, k: string)
    ensures Get(LoadLines(a + b), k) ==
      if Get(LoadLines(b), k).Some? then Get(LoadLines(b), k) else Get(LoadLines(a), k)
  {
    if b == [] {
      assert a + b == a;
    } else {
      var front := b[..|b| - 1];
      assert (a + b)[..|a + b| - 1] == a + front;
      assert (a + b)[|a + b| - 1] == b[|b| - 1];
      LoadAppend(a, front, k);
    }
  }

  // ----------------------------------------------------------------- saving

  /** `f"{key}={value}\n"`. */
  function Render(p: Property): string {
    p.key + "=" + p.value + "\n"
  }

  /** The second pass of `save_config` on one line: a line whose key the map holds becomes that key's rendering. */
  function RewriteLine(line: string, m: Props): string {
    match KeyOf(line)
    case Some(k) => (match Get(m, k) case Some(v) => Render(Property(k, v)) case None => line)
    case None => line
  }

  /** The file's lines, each rewritten in its own place. */
  function Rewrite(lines: seq<string>, m: Props): (r: seq<string>)
    ensures |r| == |lines|
    ensures forall i :: 0 <= i < |lines| ==> r[i] == RewriteLine(lines[i], m)
  {
    if lines == [] then [] else Rewrite(lines[..|lines| - 1], m) + [RewriteLine(lines[|lines| - 1], m)]
  }

  /** The `written_keys` set after the pass over `lines`: the map's keys that some line carries. */
  function WrittenKeys(lines: seq<string>, m: Props): (w: set<string>)
  {
    if lines == [] then {}
    else
      var w := WrittenKeys(lines[..|lines| - 1], m);
      match KeyOf(lines[|lines| - 1])
      case Some(k) => if Get(m, k).Some? then w + {k} else w
      case None => w
  }

  /** `written_keys` holds exactly the map's keys that some line carries. */
  lemma {:induction false} WrittenKeysSpec(lines: seq<string>, m: Props, k: string)
    ensures k in WrittenKeys(lines, m) <==> Get(m, k).Some? && exists i :: 0 <= i < |lines| && KeyOf(lines[i]) == Some(k)
  {
    if lines != [] {
      var front := lines[..|lines| - 1];
      WrittenKeysSpec(front, m, k);
      assert forall i :: 0 <= i < |front| ==> front[i] == lines[i];
    }
  }

  /** The items of `m` whose key is not in `written`, in the map's order. */
  function Missing(m: Props, written: set<string>): (r: Props)
    ensures forall p :: p in r <==> p in m && p.key !in written
    ensures UniqueKeys(m) ==> UniqueKeys(r)
  {
    if m == [] then []
    else
      var front, last := m[..|m| - 1], m[|m| - 1];
      assert m == front + [last];
      var r := Missing(front, written);
      if last.key in written then r
      else
        assert UniqueKeys(m) ==> forall p :: p in r ==> p.key != last.key by {
          if UniqueKeys(m) {
            forall p | p in r ensures p.key != last.key {
              var i :| 0 <= i < |front| && front[i] == p;
              assert m[i] == p;
            }
          }
        }
        r + [last]
  }

  /** The lines of `ps`, one rendering each, in order. */
  function Renders(ps: Props): (r: seq<string>)
    ensures |r| == |ps|
    ensures forall i :: 0 <= i < |ps| ==> r[i] == Render(ps[i])
  {
    if ps == [] then [] else Renders(ps[..|ps| - 1]) + [Render(ps[|ps| - 1])]
  }

  /** What `save_config` writes: the rewritten lines, then the keys no line carried. */
  function SaveLines(lines: seq<string>, m: Props): seq<string> {
    Rewrite(lines, m) + Renders(Missing(m, WrittenKeys(lines, m)))
  }

  /**
   * Each original line keeps its position: a key line whose key the map holds
   * becomes `key=<current value>\n`, every other line (blank, comment,
   * `=`-less, or a key the map lacks) is written verbatim.
   */
  lemma SaveKeepsLinesInPlace(lines: seq<string>, m: Props, i: nat)
    requires i < |lines|
    ensures |SaveLines(lines, m)| >= |lines|
    ensures KeyOf(lines[i]).None? ==> SaveLines(lines, m)[i] == lines[i]
    ensures KeyOf(lines[i]).Some? && Get(m, KeyOf(lines[i]).value).None? ==> SaveLines(lines, m)[i] == lines[i]
    ensures KeyOf(lines[i]).Some? && Get(m, KeyOf(lines[i]).value).Some? ==>
      SaveLines(lines, m)[i] == Render(Property(KeyOf(lines[i]).value, Get(m, KeyOf(lines[i]).value).value))
  {
  }

  /**
   * After the original lines come exactly the map's items whose key no line
   * carried, each once, in map order; a key rewritten in place is never
   * appended.
   */
  lemma SaveAppendsMissingKeys(lines: seq<string>, m: Props)
    requires UniqueKeys(m)
    ensures SaveLines(lines, m)[|lines|..] == Renders(Missing(m, WrittenKeys(lines, m)))
    ensures forall p :: p in Missing(m, WrittenKeys(lines, m)) <==>
      p in m && forall i :: 0 <= i < |lines| ==> KeyOf(lines[i]) != Some(p.key)
    ensures UniqueKeys(Missing(m, WrittenKeys(lines, m)))
  {
    var w := WrittenKeys(lines, m);
    forall p | p in m
      ensures p.key in w <==> exists i :: 0 <= i < |lines| && KeyOf(lines[i]) == Some(p.key)
    {
      var j :| 0 <= j < |m| && m[j] == p;
      assert Get(m, p.key).Some?;
      WrittenKeysSpec(lines, m, p.key);
    }
  }

  // ------------------------------------------------------ save then load

  /** A property `save_config` can write and `load_config` read back unchanged. */
  predicate Storable(p: Property) {
    && Trimmed(p.key) && Trimmed(p.value)
    && '=' !in p.key
    && (p.key == [] || p.key[0] != '#')
  }

  predicate AllStorable(m: Props) {
    forall i :: 0 <= i < |m| ==> Storable(m[i])
  }

  /** A rendered property parses back to itself. */
  lemma ParseRendered(p: Property)
    requires Storable(p)
    ensures ParseLine(Render(p)) == Some(p)
  {
    var s := p.key + "=" + p.value;
    assert Render(p) == s + ['\n'];
    StripAppendSpace(s, '\n');
    assert Trimmed(s);
    StripOfTrimmed(s);
    FindAfter(p.key, '=', p.value);
    assert s[..|p.key|] == p.key && s[|p.key| + 1..] == p.value;
    StripOfTrimmed(p.key);
    StripOfTrimmed(p.value);
  }

  /** `m`'s unique keys and membership decide `Get`. */
  lemma GetMember(m: Props, p: Property)
    requires UniqueKeys(m)
    ensures Get(m, p.key) == Some(p.value) <==> p in m
  {
  }

  /** Loading the renderings of a map gives the map's values back. */
  lemma {:induction false} LoadRenders(ps: Props, k: string)
    requires UniqueKeys(ps) && AllStorable(ps)
    ensures Get(LoadLines(Renders(ps)), k) == Get(ps, k)
  {
    if ps != [] {
      var front, last := ps[..|ps| - 1], ps[|ps| - 1];
      assert ps == front + [last];
      var ls := Renders(ps);
      assert ls[..|ls| - 1] == Renders(front);
      ParseRendered(last);
      LoadRenders(front, k);
      GetSnoc(front, last, k);
      assert forall i :: 0 <= i < |front| ==> front[i].key != last.key by {
        forall i | 0 <= i < |front| ensures front[i].key != last.key {
          assert ps[i] == front[i];
        }
      }
    }
  }

  /**
   * Loading the rewritten lines: a map key some line carried reads as its
   * current value, a map key no line carried is absent, and any other key
   * reads as it did from the original lines.
   */
  lemma {:induction false} LoadRewrite(lines: seq<string>, m: Props, k: string)
    requires UniqueKeys(m) && AllStorable(m)
    ensures Get(LoadLines(Rewrite(lines, m)), k) ==
      if Get(m, k).Some? then (if k in WrittenKeys(lines, m) then Get(m, k) else None)
      else Get(LoadLines(lines), k)
  {
    if lines != [] {
      var front, last := lines[..|lines| - 1], lines[|lines| - 1];
      var rw := Rewrite(lines, m);
      assert rw[..|rw| - 1] == Rewrite(front, m);
      assert rw[|rw| - 1] == RewriteLine(last, m);
      LoadRewrite(front, m, k);
      RewriteLineParse(last, m);
      GetLoadLast(lines, k);
      GetLoadLast(rw, k);
      assert k in WrittenKeys(lines, m) <==>
        k in WrittenKeys(front, m) || (KeyOf(last) == Some(k) && Get(m, k).Some?);
    }
  }

  /** One lookup in the map loaded from `lines`: the last line decides when it carries `k`, the earlier lines otherwise. */
  lemma GetLoadLast(lines: seq<string>, k: string)
    requires lines != []
    ensures Get(LoadLines(lines), k) ==
      if KeyOf(lines[|lines| - 1]) == Some(k) then Some(ParseLine(lines[|lines| - 1]).value.value)
      else Get(LoadLines(lines[..|lines| - 1]), k)
  {
  }

  /** A line whose key the map holds is rewritten to parse as that key and its map value; any other line is kept. */
  lemma RewriteLineParse(line: string, m: Props)
    requires UniqueKeys(m) && AllStorable(m)
    ensures KeyOf(line).Some? && Get(m, KeyOf(line).value).Some? ==>
      ParseLine(RewriteLine(line, m)) == Some(Property(KeyOf(line).value, Get(m, KeyOf(line).value).value))
    ensures !(KeyOf(line).Some? && Get(m, KeyOf(line).value).Some?) ==> RewriteLine(line, m) == line
  {
    match KeyOf(line)
    case None =>
    case Some(k') =>
      match Get(m, k')
      case Some(v') =>
        var i := IndexOfKey(m, k');
        assert m[i] == Property(k', v');
        ParseRendered(m[i]);
      case None =>
  }

  /**
   * Save then load: every key of the merged map reads back as its merged
   * value, and every other key reads as it did from the original lines,
   * provided the map's keys and values survive a write (`Storable`).
   */
  lemma SaveThenLoad(lines: seq<string>, m: Props, k: string)
    requires UniqueKeys(m) && AllStorable(m)
    ensures Get(LoadLines(SaveLines(lines, m)), k) ==
      if Get(m, k).Some? then Get(m, k) else Get(LoadLines(lines), k)
  {
    var w := WrittenKeys(lines, m);
    var missing := Missing(m, w);
    LoadAppend(Rewrite(lines, m), Renders(missing), k);
    LoadRewrite(lines, m, k);
    assert AllStorable(missing) by {
      forall i | 0 <= i < |missing| ensures Storable(missing[i]) {
        assert missing[i] in m;
      }
    }
    LoadRenders(missing, k);
    if Get(m, k).Some? {
      var v := Get(m, k).value;
      GetMember(m, Property(k, v));
      if k !in w {
        GetMember(missing, Property(k, v));
      } else {
        forall j | 0 <= j < |missing| ensures missing[j].key != k {
          assert missing[j] in missing;
        }
      }
    } else {
      forall j | 0 <= j < |missing| ensures missing[j].key != k {
        assert missing[j] in m;
      }
    }
  }

  // -------------------------------------------------------- the file text

  /** A complete line: ends with its only newline and holds no carriage return. */
  predicate IsLine(l: string) {
    && l != [] && l[|l| - 1] == '\n' && '\r' !in l
    && forall j :: 0 <= j < |l| - 1 ==> l[j] != '\n'
  }

  /**
   * The universal-newline translation text mode applies as it reads: `\r\n`
   * and a lone `\r` each become `\n`.
   */
  function Translate(raw: string): (t: string)
    ensures '\r' !in t
    decreases |raw|
  {
    if raw == [] then []
    else if raw[0] == '\r' then "\n" + Translate(if |raw| > 1 && raw[1] == '\n' then raw[2..] else raw[1..])
    else [raw[0]] + Translate(raw[1..])
  }

  /** Text without carriage returns is read as it was written. */
  lemma {:induction false} TranslateFree(s: string)
    requires '\r' !in s
    ensures Translate(s) == s
    decreases |s|
  {
    if s != [] {
      assert forall j :: 0 <= j < |s| - 1 ==> s[1..][j] == s[j + 1];
      TranslateFree(s[1..]);
      assert s == [s[0]] + s[1..];
    }
  }

  /** The translated text ends with a newline exactly when the raw text ends with `\n` or `\r`. */
  lemma {:induction false} TranslateLast(raw: string)
    requires raw != []
    ensures var t := Translate(raw);
      t != [] && (t[|t| - 1] == '\n' <==> raw[|raw| - 1] == '\n' || raw[|raw| - 1] == '\r')
    decreases |raw|
  {
    var rest := if raw[0] == '\r' && |raw| > 1 && raw[1] == '\n' then raw[2..] else raw[1..];
    if rest != [] {
      TranslateLast(rest);
      assert raw[|raw| - 1] == rest[|rest| - 1];
    }
  }

  /** The lines `for line in f` yields from translated text: each keeps its newline; the last may lack one. */
  function ReadLines(text: string): (ls: seq<string>)
    decreases |text|
  {
    if text == [] then []
    else
      var i := Find(text, '\n');
      if i == |text| then [text] else [text[..i + 1]] + ReadLines(text[i + 1..])
  }

  /** Every line read from a file is complete except perhaps the last. */
  lemma {:induction false} ReadLinesComplete(text: string)
    requires '\r' !in text
    ensures forall i :: 0 <= i < |ReadLines(text)| - 1 ==> IsLine(ReadLines(text)[i])
    decreases |text|
  {
    if text != [] {
      var i := Find(text, '\n');
      if i < |text| {
        var rest := text[i + 1..];
        assert forall j :: 0 <= j < |rest| ==> rest[j] == text[i + 1 + j];
        ReadLinesComplete(rest);
        var l := text[..i + 1];
        assert forall j :: 0 <= j < |l| ==> l[j] == text[j];
        assert IsLine(l);
      }
    }
  }

  /** The last line read is complete exactly when the text ends with a newline. */
  lemma {:induction false} ReadLinesLast(text: string)
    requires text != [] && '\r' !in text
    ensures ReadLines(text) != []
    ensures IsLine(ReadLines(text)[|ReadLines(text)| - 1]) <==> text[|text| - 1] == '\n'
    ensures var last := ReadLines(text)[|ReadLines(text)| - 1];
      last != [] && '\r' !in last && forall j :: 0 <= j < |last| - 1 ==> last[j] != '\n'
    decreases |text|
  {
    var i := Find(text, '\n');
    var ls := ReadLines(text);
    if i < |text| - 1 {
      var rest := text[i + 1..];
      assert ls == [text[..i + 1]] + ReadLines(rest);
      assert forall j :: 0 <= j < |rest| ==> rest[j] == text[i + 1 + j];
      ReadLinesLast(rest);
      assert ls[|ls| - 1] == ReadLines(rest)[|ReadLines(rest)| - 1];
      assert text[|text| - 1] == rest[|rest| - 1];
    } else if i == |text| - 1 {
      assert text[i + 1..] == [];
      assert ls == [text[..i + 1]] + ReadLines(text[i + 1..]);
      assert ls == [text[..i + 1]];
      assert text[..i + 1] == text;
    } else {
      assert ls == [text];
    }
  }

  /** `f.writelines(ls)`: the lines written one after another. */
  function Concat(ls: seq<string>): string {
    if ls == [] then [] else ls[0] + Concat(ls[1..])
  }

  /** Reading loses nothing: the lines read, put back together, are the text. */
  lemma {:induction false} ReadLinesConcat(text: string)
    ensures Concat(ReadLines(text)) == text
    decreases |text|
  {
    if text != [] {
      var i := Find(text, '\n');
      if i < |text| {
        var ls := ReadLines(text);
        ReadLinesConcat(text[i + 1..]);
        assert ls[0] == text[..i + 1] && ls[1..] == ReadLines(text[i + 1..]);
        assert text == text[..i + 1] + text[i + 1..];
      } else {
        assert ReadLines(text)[1..] == [];
        assert text + [] == text;
      }
    }
  }

  /** Complete lines written one after another hold no carriage return. */
  lemma {:induction false} ConcatFree(ls: seq<string>)
    requires forall i :: 0 <= i < |ls| ==> IsLine(ls[i])
    ensures '\r' !in Concat(ls)
  {
    if ls != [] {
      ConcatFree(ls[1..]);
    }
  }

  /** The lines `for line in f` yields from a text-mode file whose raw contents are `raw`. */
  function FileLines(raw: string): seq<string> {
    ReadLines(Translate(raw))
  }

  /** Reading back text made of complete lines gives those lines. */
  lemma {:induction false} ReadConcat(ls: seq<string>)
    requires forall i :: 0 <= i < |ls| ==> IsLine(ls[i])
    ensures ReadLines(Concat(ls)) == ls
  {
    if ls != [] {
      var l := ls[0];
      var rest := Concat(ls[1..]);
      assert l == l[..|l| - 1] + ['\n'];
      FindAfter(l[..|l| - 1], '\n', rest);
      assert Concat(ls) == l[..|l| - 1] + ['\n'] + rest;
      assert Concat(ls)[..|l|] == l && Concat(ls)[|l|..] == rest;
      ReadConcat(ls[1..]);
      assert ls == [l] + ls[1..];
    }
  }

  /** A rendered property is a complete line when neither key nor value holds a line break. */
  predicate SingleLine(p: Property) {
    '\n' !in p.key && '\n' !in p.value && '\r' !in p.key && '\r' !in p.value
  }

  predicate AllSingleLine(m: Props) {
    forall i :: 0 <= i < |m| ==> SingleLine(m[i])
  }

  lemma RenderIsLine(p: Property)
    requires SingleLine(p)
    ensures IsLine(Render(p))
  {
    var r := Render(p);
    assert r[..|r| - 1] == p.key + "=" + p.value;
  }

  /** Every line `save_config` writes is complete when every original line is. */
  lemma SavedLinesComplete(lines: seq<string>, m: Props)
    requires UniqueKeys(m) && AllSingleLine(m)
    requires forall i :: 0 <= i < |lines| ==> IsLine(lines[i])
    ensures forall i :: 0 <= i < |SaveLines(lines, m)| ==> IsLine(SaveLines(lines, m)[i])
  {
    var out := SaveLines(lines, m);
    var missing := Missing(m, WrittenKeys(lines, m));
    forall i | 0 <= i < |out| ensures IsLine(out[i]) {
      if i < |lines| {
        match KeyOf(lines[i])
        case None =>
        case Some(k) =>
          match Get(m, k)
          case Some(v) =>
            var j := IndexOfKey(m, k);
            assert m[j] == Property(k, v);
            RenderIsLine(m[j]);
          case None =>
      } else {
        var j := i - |lines|;
        assert out[i] == Render(missing[j]);
        assert missing[j] in m;
        var t :| 0 <= t < |m| && m[t] == missing[j];
        RenderIsLine(missing[j]);
      }
    }
  }

  /**
   * Save then load on the raw file text: when the file is empty or ends with
   * a line break, reading back what `save_config` wrote gives every merged key
   * its merged value and every other key its old value.
   */
  lemma SaveThenLoadText(text: string, m: Props, k: string)
    requires UniqueKeys(m) && AllStorable(m) && AllSingleLine(m)
    requires text == [] || text[|text| - 1] == '\n' || text[|text| - 1] == '\r'
    ensures Get(LoadLines(FileLines(Concat(SaveLines(FileLines(text), m)))), k) ==
      if Get(m, k).Some? then Get(m, k) else Get(LoadLines(FileLines(text)), k)
  {
    var t := Translate(text);
    var lines := ReadLines(t);
    ReadLinesComplete(t);
    if text != [] {
      TranslateLast(text);
    }
    forall i | 0 <= i < |lines| ensures IsLine(lines[i]) {
      if i == |lines| - 1 {
        ReadLinesLast(t);
      }
    }
    var out := SaveLines(lines, m);
    SavedLinesComplete(lines, m);
    ConcatFree(out);
    TranslateFree(Concat(out));
    ReadConcat(out);
    SaveThenLoad(lines, m, k);
  }

  lemma ConcatPair(a: string, b: string)
    ensures Concat([a, b]) == a + b
  {
    var s := [a, b];
    assert s[1..] == [b];
    assert [b][1..] == [];
    assert Concat([b]) == b + Concat([]);
    assert b + [] == b;
  }

  /** A line with no newline in it is read as that one line. */
  lemma ReadOneLine(line: string)
    requires line != [] && '\n' !in line
    ensures ReadLines(line) == [line]
  {
    assert Find(line, '\n') == |line|;
  }

  /** A comment line carries no key. */
  lemma CommentHasNoKey(line: string)
    requires Trimmed(line) && line != [] && line[0] == '#'
    ensures KeyOf(line).None?
  {
    StripOfTrimmed(line);
  }

  /** A line that carries no key is rewritten as itself. */
  lemma RewriteKeyless(line: string, m: Props)
    requires KeyOf(line).None?
    ensures Rewrite([line], m) == [line]
  {
    assert RewriteLine(line, m) == line;
  }

  /** A line that carries no key writes no key. */
  lemma WrittenKeyless(line: string, m: Props)
    requires KeyOf(line).None?
    ensures WrittenKeys([line], m) == {}
  {
    assert [line][..0] == [];
  }

  /** With nothing written, the one property is missing. */
  lemma MissingOne(p: Property)
    ensures Missing([p], {}) == [p]
  {
    assert [p][..0] == [];
  }

  /** Saving one property over a single line that carries no key keeps that line and appends the property. */
  lemma SaveOverKeylessLine(line: string, p: Property)
    requires KeyOf(line).None?
    ensures SaveLines([line], [p]) == [line, Render(p)]
  {
    RewriteKeyless(line, [p]);
    WrittenKeyless(line, [p]);
    MissingOne(p);
    assert Renders([p]) == [Render(p)];
  }

  /** A complete comment line reads back as that one line and loads no key. */
  lemma CommentLineLoadsNothing(body: string)
    requires Trimmed(body) && body != [] && body[0] == '#' && '\n' !in body
    ensures LoadLines(ReadLines(body + "\n")) == []
  {
    var glued := body + "\n";
    FindAfter(body, '\n', []);
    assert body + ['\n'] + [] == glued;
    assert ReadLines(glued) == [glued] by {
      assert glued[|glued|..] == [];
      assert glued[..|body| + 1] == glued;
    }
    StripAppendSpace(body, '\n');
    StripOfTrimmed(body);
    assert [glued][..0] == [];
  }

  /**
   * As written, a last line without a newline that `save_config` keeps
   * verbatim runs into the first appended key: a file holding only a comment
   * such as `# note`, with no newline after it, saved with a property such as
   * `motd=hi`, reads back as the single comment line `# notemotd=hi`, so the
   * property is lost.
   */
  lemma UnterminatedLastLineLosesKey(note: string, p: Property)
    requires Trimmed(note) && note != [] && note[0] == '#' && '\n' !in note && '\r' !in note
    requires Storable(p) && SingleLine(p)
    ensures SaveLines(FileLines(note), [p]) == [note, Render(p)]
    ensures LoadLines(FileLines(Concat(SaveLines(FileLines(note), [p])))) == []
  {
    TranslateFree(note);
    ReadOneLine(note);
    CommentHasNoKey(note);
    SaveOverKeylessLine(note, p);
    ConcatPair(note, Render(p));
    var body := note + p.key + "=" + p.value;
    assert note + Render(p) == body + "\n";
    assert body[0] == '#';
    assert '\n' !in body;
    assert Trimmed(body);
    assert '\r' !in body + "\n";
    TranslateFree(body + "\n");
    CommentLineLoadsNothing(body);
  }

  /** The file's lines with a newline added to the last one if it lacks one. */
  function EndLastLine(lines: seq<string>): (r: seq<string>)
    ensures |r| == |lines|
  {
    if lines == [] || EndsWith(lines[|lines| - 1], "\n") then lines
    else lines[..|lines| - 1] + [lines[|lines| - 1] + "\n"]
  }

  /** Adding the missing newline does not change what a line parses to. */
  lemma LoadEndLastLine(lines: seq<string>, k: string)
    ensures Get(LoadLines(EndLastLine(lines)), k) == Get(LoadLines(lines), k)
  {
    var r := EndLastLine(lines);
    if r != lines {
      var last := lines[|lines| - 1];
      StripAppendSpace(last, '\n');
      assert r[..|r| - 1] == lines[..|lines| - 1];
    }
  }

  /** The corrected save: the kept last line is ended before any key is appended. */
  function SaveLinesFixed(lines: seq<string>, m: Props): seq<string> {
    SaveLines(EndLastLine(lines), m)
  }

  /** With the correction, save then load round-trips for every raw file text. */
  lemma SaveFixedThenLoadText(text: string, m: Props, k: string)
    requires UniqueKeys(m) && AllStorable(m) && AllSingleLine(m)
    ensures Get(LoadLines(FileLines(Concat(SaveLinesFixed(FileLines(text), m)))), k) ==
      if Get(m, k).Some? then Get(m, k) else Get(LoadLines(FileLines(text)), k)
  {
    var t := Translate(text);
    var lines := ReadLines(t);
    ReadLinesComplete(t);
    var ended := EndLastLine(lines);
    forall i | 0 <= i < |ended| ensures IsLine(ended[i]) {
      if i < |lines| - 1 {
        assert ended[i] == lines[i];
      } else {
        ReadLinesLast(t);
        var last := lines[|lines| - 1];
        if !EndsWith(last, "\n") {
          var l := last + "\n";
          assert ended[i] == l;
          assert forall j :: 0 <= j < |l| - 1 ==> l[j] == last[j];
          assert last[|last| - 1] != '\n';
        } else {
          assert last[|last| - 1] == '\n';
        }
      }
    }
    SavedLinesComplete(ended, m);
    ConcatFree(SaveLines(ended, m));
    TranslateFree(Concat(SaveLines(ended, m)));
    ReadConcat(SaveLines(ended, m));
    SaveThenLoad(ended, m, k);
    LoadEndLastLine(lines, k);
  }

  /** One more line of `load_config`'s loop: its property, if it has one, is put into the map. */
  lemma LoadStep(lines: seq<string>, i: nat)
    requires i < |lines|
    ensures LoadLines(lines[..i + 1]) ==
      match ParseLine(lines[i])
      case Some(p) => Put(LoadLines(lines[..i]), p.key, p.value)
      case None => LoadLines(lines[..i])
  {
    assert lines[..i + 1][..i] == lines[..i];
  }

  /** One more line of the rewrite pass: its rewriting is appended and its key, if the map holds it, recorded. */
  lemma SavePassStep(lines: seq<string>, i: nat, m: Props)
    requires i < |lines|
    ensures Rewrite(lines[..i + 1], m) == Rewrite(lines[..i], m) + [RewriteLine(lines[i], m)]
    ensures WrittenKeys(lines[..i + 1], m) ==
      if KeyOf(lines[i]).Some? && Get(m, KeyOf(lines[i]).value).Some?
      then WrittenKeys(lines[..i], m) + {KeyOf(lines[i]).value}
      else WrittenKeys(lines[..i], m)
  {
    assert lines[..i + 1][..i] == lines[..i];
  }

  /** One more item of the append pass: rendered and appended when no line carried its key. */
  lemma AppendPassStep(m: Props, j: nat, written: set<string>)
    requires j < |m|
    ensures Renders(Missing(m[..j + 1], written)) ==
      if m[j].key in written then Renders(Missing(m[..j], written))
      else Renders(Missing(m[..j], written)) + [Render(m[j])]
  {
    MissingStep(m, j, written);
    if m[j].key !in written {
      RendersSnoc(Missing(m[..j], written), m[j]);
    } else {
      assert Missing(m[..j], written) + [] == Missing(m[..j], written);
    }
  }

  lemma MissingStep(m: Props, j: nat, written: set<string>)
    requires j < |m|
    ensures Missing(m[..j + 1], written) ==
      Missing(m[..j], written) + (if m[j].key in written then [] else [m[j]])
  {
    var s := m[..j + 1];
    assert s[..|s| - 1] == m[..j] && s[|s| - 1] == m[j];
  }

  lemma RendersSnoc(a: Props, p: Property)
    ensures Renders(a + [p]) == Renders(a) + [Render(p)]
  {
    assert (a + [p])[..|a|] == a;
  }

  /**
   * The first loop of the effective pass of `save_config`: each line is
   * rewritten in its place, and the keys it rewrote are collected.
   */
  method RewritePass(lines: seq<string>, m: Props) returns (finalLines: seq<string>, writtenKeys: set<string>)
    ensures finalLines == Rewrite(lines, m)
    ensures writtenKeys == WrittenKeys(lines, m)
  {
    finalLines, writtenKeys := [], {};
    for i := 0 to |lines|
      invariant finalLines == Rewrite(lines[..i], m)
      invariant writtenKeys == WrittenKeys(lines[..i], m)
    {
      SavePassStep(lines, i, m);
      var line := lines[i];
      var key := KeyOf(line);
      if key.Some? && Get(m, key.value).Some? {
        finalLines := finalLines + [Render(Property(key.value, Get(m, key.value).value))];
        writtenKeys := writtenKeys + {key.value};
      } else {
        finalLines := finalLines + [line];
      }
    }
    assert lines[..|lines|] == lines;
  }

  /** The second loop: every item whose key no line carried is rendered, in map order. */
  method AppendPass(m: Props, writtenKeys: set<string>) returns (appended: seq<string>)
    ensures appended == Renders(Missing(m, writtenKeys))
  {
    appended := [];
    for j := 0 to |m|
      invariant appended == Renders(Missing(m[..j], writtenKeys))
    {
      AppendPassStep(m, j, writtenKeys);
      var p := m[j];
      if p.key !in writtenKeys {
        appended := appended + [Render(p)];
      }
    }
    assert m[..|m|] == m;
  }

  // ---------------------------------------------------------------- manager

  /** `ConfigManager`: the in-memory properties of one server directory. */
  class ConfigManager {
    var properties: Props

    ghost predicate Valid()
      reads this
    {
      UniqueKeys(properties)
    }

    constructor ()
      ensures Valid() && properties == []
    {
      properties := [];
    }

    /**
     * `load_config`: a missing file returns a fresh `{}` and leaves the
     * stored map as it was; otherwise the stored map is rebuilt from the
     * file's lines and returned.
     */
    method LoadConfig(file: Option<seq<string>>) returns (loaded: Props)
      requires Valid()
      modifies this
      ensures Valid()
      ensures file.None? ==> loaded == [] && properties == old(properties)
      ensures file.Some? ==> properties == LoadLines(file.value) && loaded == properties
    {
      if file.None? {
        return [];
      }
      var lines := file.value;
      properties := [];
      for i := 0 to |lines|
        invariant properties == LoadLines(lines[..i])
      {
        LoadStep(lines, i);
        match ParseLine(lines[i]) {
          case Some(p) => properties := Put(properties, p.key, p.value);
          case None =>
        }
      }
      assert lines[..|lines|] == lines;
      loaded := properties;
    }

    /**
     * `save_config` (its second, effective pass), with the last line of the
     * file ended before anything is appended (see `SaveLinesFixed`): merge
     * `newProperties` into the stored map, then return the lines to write:
     * the file's lines rewritten in place, then the map's keys no line carried.
     */
    method SaveConfig(newProperties: Props, file: Option<seq<string>>) returns (written: seq<string>)
      requires Valid()
      modifies this
      ensures Valid()
      ensures properties == Update(old(properties), newProperties)
      ensures written == SaveLinesFixed(file.GetOr([]), properties)
    {
      properties := Update(properties, newProperties);
      var finalLines, writtenKeys := RewritePass(EndLastLine(file.GetOr([])), properties);
      var appended := AppendPass(properties, writtenKeys);
      written := finalLines + appended;
    }

    /** `get_property`: the stored value of `key`, if any. */
    function GetProperty(key: string): (r: Option<string>)
      reads this
      requires Valid()
      ensures r.Some? <==> exists i :: 0 <= i < |properties| && properties[i].key == key
      ensures forall i :: 0 <= i < |properties| && properties[i].key == key ==> r == Some(properties[i].value)
    {
      Get(properties, key)
    }

    /** `set_property`: `key` now maps to `value`; every other key is untouched. */
    method SetProperty(key: string, value: string)
      requires Valid()
      modifies this
      ensures Valid()
      ensures properties == Put(old(properties), key, value)
      ensures GetProperty(key) == Some(value)
      ensures forall k :: k != key ==> GetProperty(k) == old(GetProperty(k))
    {
      properties := Put(properties, key, value);
    }
  }
}
