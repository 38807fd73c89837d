/** The protein id the aggregator derives from a file name
    (bin/parse_pdb_files.py:196): `infile.split('/')[-1].split('.')[0].lstrip('pdb')`.
    Python's `str.split` with a one-character separator and `str.lstrip` with a
    set of characters are modelled as written, with `Join` as the inverse of `Split`. */
module ProteinIds {

  /** `s.split(sep)`: the maximal separator-free pieces between separators, in
      order. A string with k separators gives k + 1 pieces, some maybe empty. */
  function Split(s: string, sep: char): (parts: seq<string>)
    ensures |parts| >= 1
    decreases |s|
  {
    if s == [] then [[]]
    else
      var rest := Split(s[1..], sep);
      if s[0] == sep then [[]] + rest
      else [[s[0]] + rest[0]] + rest[1..]
  }

  /** No piece contains the separator, and joining the pieces gives back the string. */
  lemma {:induction false} JoinSplit(s: string, sep: char)
    ensures var parts := Split(s, sep);
      (forall k | 0 <= k < |parts| :: sep !in parts[k]) && Join(parts, sep) == s
    decreases |s|
  {
    if s != [] {
      JoinSplit(s[1..], sep);
      var rest := Split(s[1..], sep);
      var parts := Split(s, sep);
      if s[0] == sep {
        assert parts[1..] == rest;
        assert Join(parts, sep) == [sep] + Join(rest, sep);
      } else {
        assert parts[1..] == rest[1..];
        assert forall k | 1 <= k < |parts| :: parts[k] == rest[k];
        if |rest| > 1 {
          assert Join(rest, sep) == rest[0] + [sep] + Join(rest[1..], sep);
        }
      }
    }
  }

  /** `sep.join(parts)`. */
  function Join(parts: seq<string>, sep: char): string
    requires |parts| >= 1
    decreases |parts|
  {
    if |parts| == 1 then parts[0] else parts[0] + [sep] + Join(parts[1..], sep)
  }

  /** Splitting undoes joining pieces that hold no separator. */
  lemma {:induction false} SplitJoin(parts: seq<string>, sep: char)
    requires |parts| >= 1
    requires forall k | 0 <= k < |parts| :: sep !in parts[k]
    ensures Split(Join(parts, sep), sep) == parts
    decreases |parts|, |parts[0]|
  {
    var p := parts[0];
    if p == [] {
      if |parts| > 1 {
        SplitJoin(parts[1..], sep);
        assert Join(parts, sep) == [sep] + Join(parts[1..], sep);
        assert Join(parts, sep)[1..] == Join(parts[1..], sep);
      }
    } else {
      var shorter := [p[1..]] + parts[1..];
      assert forall k | 0 <= k < |shorter| :: sep !in shorter[k] by {
        forall k | 0 <= k < |shorter| ensures sep !in shorter[k] {
          if k > 0 { assert shorter[k] == parts[k]; }
        }
      }
      SplitJoin(shorter, sep);
      assert Join(parts, sep) == [p[0]] + Join(shorter, sep) by {
        if |parts| > 1 {
          assert Join(shorter, sep) == p[1..] + [sep] + Join(parts[1..], sep);
        }
      }
      assert Join(parts, sep)[1..] == Join(shorter, sep);
      assert [p[0]] + shorter[0] == p;
      assert shorter[1..] == parts[1..];
    }
  }

  /** The first piece is a prefix of the joined string, the last one a suffix. */
  lemma {:induction false} JoinEnds(parts: seq<string>, sep: char)
    requires |parts| >= 1
    ensures parts[0] <= Join(parts, sep)
    ensures var j, last := Join(parts, sep), parts[|parts| - 1];
      |last| <= |j| && j[|j| - |last|..] == last
    decreases |parts|
  {
    if |parts| > 1 {
      JoinEnds(parts[1..], sep);
    }
  }

  /** `s.lstrip(chars)`: drops the longest leading run of characters from `chars`. */
  function LStrip(s: string, chars: set<char>): (r: string)
    ensures |r| <= |s| && r == s[|s| - |r|..]
    ensures forall i | 0 <= i < |s| - |r| :: s[i] in chars
    ensures r == [] || r[0] !in chars
    decreases |s|
  {
    if s != [] && s[0] in chars then LStrip(s[1..], chars) else s
  }

  const PdbChars: set<char> := {'p', 'd', 'b'}

  /** The last `/`-separated piece of the name, then its part before the first `.`. */
  function Stem(filename: string): string
  {
    var pieces := Split(filename, '/');
    Split(pieces[|pieces| - 1], '.')[0]
  }

  /** The protein id: the stem with its leading run of p, d and b removed. */
  function ProteinId(filename: string): (id: string)
    ensures var stem := Stem(filename);
      |id| <= |stem| && id == stem[|stem| - |id|..] &&
      (forall i | 0 <= i < |stem| - |id| :: stem[i] in PdbChars) &&
      (id == [] || id[0] !in PdbChars)
  {
    LStrip(Stem(filename), PdbChars)
  }

  /** The last piece of a split holds no separator, ends the string, and is
      either the whole string or has the separator just before it. */
  lemma LastPiece(s: string, sep: char)
    ensures var pieces := Split(s, sep); var last := pieces[|pieces| - 1];
      sep !in last && |last| <= |s| && s[|s| - |last|..] == last &&
      (|last| == |s| || s[|s| - |last| - 1] == sep)
  {
    var pieces := Split(s, sep);
    JoinSplit(s, sep);
    JoinEnds(pieces, sep);
    if |pieces| > 1 {
      PieceBeforeLast(pieces, sep);
    } else {
      assert Join(pieces, sep) == pieces[0];
    }
  }

  /** The first piece of a split holds no separator, begins the string, and is
      either the whole string or has the separator just after it. */
  lemma FirstPiece(s: string, sep: char)
    ensures var first := Split(s, sep)[0];
      sep !in first && first <= s && (first == s || s[|first|] == sep)
  {
    var pieces := Split(s, sep);
    JoinSplit(s, sep);
    JoinEnds(pieces, sep);
    if |pieces| > 1 {
      assert s == pieces[0] + [sep] + Join(pieces[1..], sep);
    }
  }

  /** The stem is the part before the first `.` of the last `/`-piece of the
      name, so it contains neither character. */
  lemma StemShape(filename: string)
    ensures '/' !in Stem(filename) && '.' !in Stem(filename)
  {
    var pieces := Split(filename, '/');
    var tail := pieces[|pieces| - 1];
    LastPiece(filename, '/');
    FirstPiece(tail, '.');
    PrefixKeepsAbsence(Split(tail, '.')[0], tail, '/');
  }

  lemma PrefixKeepsAbsence(a: string, b: string, c: char)
    requires a <= b && c !in b
    ensures c !in a
  {
  }

  /** In a join of several pieces, the separator stands just before the last piece. */
  lemma {:induction false} PieceBeforeLast(parts: seq<string>, sep: char)
    requires |parts| >= 2
    ensures var j, last := Join(parts, sep), parts[|parts| - 1];
      |last| < |j| && j[|j| - |last| - 1] == sep
    decreases |parts|
  {
    if |parts| > 2 {
      PieceBeforeLast(parts[1..], sep);
    } else {
      assert Join(parts, sep) == parts[0] + [sep] + parts[1];
    }
  }

  /** The protein id contains no `/` or `.`, does not start with 'p', 'd' or
      'b', and is what is left of the stem after its leading run of those
      three letters is removed. */
  lemma ProteinIdShape(filename: string)
    ensures var id, stem := ProteinId(filename), Stem(filename);
      '/' !in id && '.' !in id && (id == [] || id[0] !in PdbChars) &&
      |id| <= |stem| && id == stem[|stem| - |id|..] &&
      forall i | 0 <= i < |stem| - |id| :: stem[i] in PdbChars
  {
    StemShape(filename);
    var stem := Stem(filename);
    var id := LStrip(stem, PdbChars);
    SuffixKeepsAbsence(id, stem, '/');
    SuffixKeepsAbsence(id, stem, '.');
  }

  lemma SuffixKeepsAbsence(a: string, b: string, c: char)
    requires |a| <= |b| && a == b[|b| - |a|..] && c !in b
    ensures c !in a
  {
  }

  /** A string without the separator splits into itself alone. */
  lemma {:induction false} SplitNoSeparator(s: string, sep: char)
    requires sep !in s
    ensures Split(s, sep) == [s]
    decreases |s|
  {
    if s != [] {
      SplitNoSeparator(s[1..], sep);
      assert [s[0]] + s[1..] == s;
    }
  }

  /** Splitting at one separator splits the two sides independently. */
  lemma SplitAround(x: string, y: string, sep: char)
    ensures Split(x + [sep] + y, sep) == Split(x, sep) + Split(y, sep)
  {
    var px, py := Split(x, sep), Split(y, sep);
    JoinSplit(x, sep);
    JoinSplit(y, sep);
    JoinAppend(px, py, sep);
    var parts := px + py;
    assert forall k | 0 <= k < |parts| :: sep !in parts[k] by {
      forall k | 0 <= k < |parts| ensures sep !in parts[k] {
        if k >= |px| { assert parts[k] == py[k - |px|]; }
      }
    }
    SplitJoin(parts, sep);
  }

  /** Joining two lists of pieces puts one separator between their joins. */
  lemma {:induction false} JoinAppend(a: seq<string>, b: seq<string>, sep: char)
    requires |a| >= 1 && |b| >= 1
    ensures Join(a + b, sep) == Join(a, sep) + [sep] + Join(b, sep)
    decreases |a|
  {
    if |a| == 1 {
      assert (a + b)[1..] == b;
    } else {
      JoinAppend(a[1..], b, sep);
      assert (a + b)[1..] == a[1..] + b;
    }
  }

  /** The stem of `<stem>.ent`, alone or under any directory, is `<stem>`
      whenever it holds neither `/` nor `.`. */
  lemma EntStem(dir: string, stem: string)
    requires '/' !in stem && '.' !in stem
    ensures Stem(stem + ".ent") == stem
    ensures Stem(dir + "/" + stem + ".ent") == stem
  {
    var name := stem + ".ent";
    assert name == stem + ['.'] + "ent";
    assert '/' !in name by {
      forall i | 0 <= i < |name| ensures name[i] != '/' {
        if i < |stem| { assert name[i] == stem[i]; }
      }
    }
    SplitNoSeparator(name, '/');
    SplitAround(stem, "ent", '.');
    SplitNoSeparator(stem, '.');
    SplitNoSeparator("ent", '.');
    assert dir + "/" + stem + ".ent" == dir + ['/'] + name;
    SplitAround(dir, name, '/');
  }

  /** lstrip of a run of stripped characters followed by anything else
      leaves exactly the rest. */
  lemma {:induction false} LStripRun(run: string, rest: string, chars: set<char>)
    requires forall i | 0 <= i < |run| :: run[i] in chars
    requires rest == [] || rest[0] !in chars
    ensures LStrip(run + rest, chars) == rest
    decreases |run|
  {
    if run != [] {
      assert (run + rest)[1..] == run[1..] + rest;
      LStripRun(run[1..], rest, chars);
    }
  }

  /** The name of a PDB entry file, `pdb<code>.ent`, alone or under any
      directory, yields its code when the code starts with a character other
      than p, d and b (PDB codes start with a digit). */
  lemma EntryFileName(dir: string, code: string)
    requires '/' !in code && '.' !in code
    requires code != [] && code[0] !in PdbChars
    ensures ProteinId("pdb" + code + ".ent") == code
    ensures ProteinId(dir + "/pdb" + code + ".ent") == code
  {
    var stem := "pdb" + code;
    assert '/' !in stem && '.' !in stem by {
      forall i | 0 <= i < |stem| ensures stem[i] != '/' && stem[i] != '.' {
        if i >= 3 { assert stem[i] == code[i - 3]; }
      }
    }
    EntStem(dir, stem);
    assert dir + "/pdb" + code + ".ent" == dir + "/" + stem + ".ent";
    LStripRun("pdb", code, PdbChars);
  }

  /** lstrip removes the whole leading run of p, d and b characters, not the
      literal prefix "pdb": a code that itself starts with one of them loses
      that character too, and so does a name without the prefix. */
  lemma LStripIsNotPrefixRemoval(code: string)
    requires '/' !in code && '.' !in code
    requires code != [] && code[0] !in PdbChars
    ensures ProteinId("pdbd" + code + ".ent") == code
    ensures ProteinId("d" + code + ".ent") == code
  {
    var stem1, stem2 := "pdbd" + code, "d" + code;
    assert '/' !in stem1 && '.' !in stem1 by {
      forall i | 0 <= i < |stem1| ensures stem1[i] != '/' && stem1[i] != '.' {
        if i >= 4 { assert stem1[i] == code[i - 4]; }
      }
    }
    assert '/' !in stem2 && '.' !in stem2 by {
      forall i | 0 <= i < |stem2| ensures stem2[i] != '/' && stem2[i] != '.' {
        if i >= 1 { assert stem2[i] == code[i - 1]; }
      }
    }
    EntStem("", stem1);
    EntStem("", stem2);
    LStripRun("pdbd", code, PdbChars);
    LStripRun("d", code, PdbChars);
  }
}
