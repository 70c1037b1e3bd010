/**
 * The key/value interpreter of asg3/main.cpp: every line of the input is
 * echoed, trimmed and then read as a comment, a lookup, an assignment, a
 * deletion, a listing of all pairs, or a listing of the pairs holding a
 * given value. The string-to-string listmap it updates is a class over a
 * Dafny map; what is printed is returned as a sequence of events.
 */
module KeyValue {
  import opened Words

  const Blanks: set<char> := {' ', '\t'}

  predicate AllBlank(s: string)
  {
    forall i :: 0 <= i < |s| ==> s[i] in Blanks
  }

  /** string::find_last_not_of: the last position outside delims, -1 when there is none. */
  function LastNotOf(s: string, delims: set<char>): (p: int)
    ensures -1 <= p < |s|
    ensures p >= 0 ==> s[p] !in delims
    ensures forall i :: p < i < |s| ==> s[i] in delims
  {
    if s == [] then -1
    else if s[|s| - 1] !in delims then |s| - 1
    else LastNotOf(s[..|s| - 1], delims)
  }

  /**
   * trim (main.cpp:36-41): the text from the first to the last character
   * that is not a space or tab; empty when there is none.
   */
  function Trim(str: string): (r: string)
    ensures |r| <= |str|
    ensures r == [] <==> AllBlank(str)
    ensures r != [] ==> r[0] !in Blanks && r[|r| - 1] !in Blanks
  {
    var first := FirstNotOf(str, Blanks, 0);
    if first == |str| then ""
    else
      var last := LastNotOf(str, Blanks);
      assert first <= last;
      str[first..last + 1]
  }

  /** Blanks around a text that starts and ends with a non-blank are exactly what trim removes. */
  lemma {:induction false} TrimPadded(a: string, w: string, b: string)
    requires AllBlank(a) && AllBlank(b)
    requires w != [] && w[0] !in Blanks && w[|w| - 1] !in Blanks
    ensures Trim(a + w + b) == w
  {
    var s := a + w + b;
    FirstNotOfIs(s, |a|);
    LastNotOfIs(s, |a| + |w| - 1);
    assert s[|a|..|a| + |w|] == w;
  }

  lemma FirstNotOfIs(s: string, p: nat)
    requires p < |s| && s[p] !in Blanks && forall i :: 0 <= i < p ==> s[i] in Blanks
    ensures FirstNotOf(s, Blanks, 0) == p
  {
  }

  lemma FirstEqualsIs(s: string, p: nat)
    requires p < |s| && s[p] == '=' && forall i :: 0 <= i < p ==> s[i] != '='
    ensures FirstOf(s, {'='}, 0) == p
  {
  }

  lemma {:induction false} LastNotOfIs(s: string, p: nat)
    requires p < |s| && s[p] !in Blanks && forall i :: p < i < |s| ==> s[i] in Blanks
    ensures LastNotOf(s, Blanks) == p
    decreases |s|
  {
    if p < |s| - 1 {
      LastNotOfIs(s[..|s| - 1], p);
    }
  }

  /** Trimming twice is trimming once. */
  lemma TrimIdempotent(s: string)
    ensures Trim(Trim(s)) == Trim(s)
  {
    var t := Trim(s);
    if t != [] {
      assert "" + t + "" == t;
      TrimPadded("", t, "");
    }
  }

  // ---------------------------------------------------------------------
  // Classifying a line (main.cpp:51-107)
  // ---------------------------------------------------------------------

  datatype Line =
    | Skip                            // empty after trimming, or a '#' comment
    | Query(key: string)              // no '=': print the pair of that key
    | ListAll                         // a bare '='
    | Delete(key: string)             // "key ="
    | ListValue(value: string)        // "= value"
    | Assign(key: string, value: string)

  /**
   * How scan_file reads a line: trimmed, a line without '=' is a key to
   * look up; otherwise it splits at the first '=' and both sides are trimmed.
   */
  function Classify(line: string): (c: Line)
    ensures c.Query? ==> c.key != [] && '=' !in c.key && c.key[0] != '#'
    ensures c.Assign? ==> c.key != [] && c.value != [] && '=' !in c.key
    ensures c.Delete? ==> c.key != [] && '=' !in c.key
    ensures c.ListValue? ==> c.value != []
  {
    var t := Trim(line);
    if |t| == 0 || t[0] == '#' then Skip
    else
      var pos := FirstOf(t, {'='}, 0);
      if pos == |t| then
        assert forall i :: 0 <= i < |t| ==> t[i] != '=';
        Query(t)
      else
        var key := Trim(t[..pos]);
        var value := Trim(t[pos + 1..]);
        NoEqualsInTrim(t[..pos]);
        if key == [] && value == [] then ListAll
        else if value == [] then Delete(key)
        else if key == [] then ListValue(value)
        else Assign(key, value)
  }

  /** Trimming a text without '=' gives a text without '='. */
  lemma NoEqualsInTrim(s: string)
    requires forall i :: 0 <= i < |s| ==> s[i] != '='
    ensures '=' !in Trim(s)
  {
    var first := FirstNotOf(s, Blanks, 0);
    if first < |s| {
      var last := LastNotOf(s, Blanks);
      assert forall i :: 0 <= i < |Trim(s)| ==> Trim(s)[i] == s[first + i];
    }
  }

  /** A text that starts and ends with a non-blank is its own trim, alone or with blanks on one side. */
  lemma {:induction false} TrimmedAlready(w: string, b: string)
    requires w != [] && w[0] !in Blanks && w[|w| - 1] !in Blanks && AllBlank(b)
    ensures Trim(w) == w && Trim(w + b) == w && Trim(b + w) == w
  {
    assert "" + w + "" == w && "" + w + b == w + b && b + w + "" == b + w;
    TrimPadded("", w, "");
    TrimPadded("", w, b);
    TrimPadded(b, w, "");
  }

  /** Where "key = value" splits: at the '=' after the key, the first one. */
  lemma {:induction false} AssignmentSlices(key: string, value: string)
    requires '=' !in key
    ensures var line := key + " = " + value;
      FirstOf(line, {'='}, 0) == |key| + 1 &&
      line[..|key| + 1] == key + " " && line[|key| + 2..] == " " + value
  {
    var line := key + " = " + value;
    assert line == (key + " ") + ("= " + value);
    assert line == (key + " =") + (" " + value);
    FirstEqualsIs(line, |key| + 1);
  }

  /** The parts of "key = value" as scan_file trims them. */
  lemma {:induction false} AssignmentParts(key: string, value: string)
    requires key != [] && key[0] !in Blanks && key[|key| - 1] !in Blanks && '=' !in key
    requires value != [] && value[0] !in Blanks && value[|value| - 1] !in Blanks
    ensures var line := key + " = " + value;
      Trim(line) == line && FirstOf(line, {'='}, 0) == |key| + 1 &&
      Trim(line[..|key| + 1]) == key && Trim(line[|key| + 2..]) == value
  {
    var line := key + " = " + value;
    assert line[0] == key[0] && line[|line| - 1] == value[|value| - 1];
    TrimmedAlready(line, "");
    AssignmentSlices(key, value);
    TrimmedAlready(key, " ");
    TrimmedAlready(value, " ");
  }

  /** A written assignment is read back as that assignment, even when the value holds '='. */
  lemma {:induction false} ClassifyAssign(key: string, value: string)
    requires key != [] && key[0] !in Blanks && key[|key| - 1] !in Blanks && '=' !in key && key[0] != '#'
    requires value != [] && value[0] !in Blanks && value[|value| - 1] !in Blanks
    ensures Classify(key + " = " + value) == Assign(key, value)
  {
    AssignmentParts(key, value);
  }

  /** A written key is read back as a lookup of that key. */
  lemma {:induction false} ClassifyQuery(key: string)
    requires key != [] && key[0] !in Blanks && key[|key| - 1] !in Blanks && '=' !in key && key[0] != '#'
    ensures Classify(key) == Query(key)
  {
    assert "" + key + "" == key;
    TrimPadded("", key, "");
  }

  // ---------------------------------------------------------------------
  // The map and what each line does to it
  // ---------------------------------------------------------------------

  /** What scan_file prints, to cout or through complain(). */
  datatype Event =
    | Echo(fname: string, lnum: nat, line: string)   // every line, before anything else
    | Pair(key: string, value: string)               // "key = value"
    | KeyNotFound(key: string)                       // complain(): "key: Key not found"
    | Listing(pairs: map<string, string>)            // one "key = value" line per pair
    | EraseAtEnd(key: string)                        // erase through the end iterator

  /** The pairs of m holding the given value. */
  function WithValue(m: map<string, string>, value: string): (r: map<string, string>)
    ensures forall k :: k in r <==> k in m && m[k] == value
    ensures forall k :: k in r ==> r[k] == value
  {
    map k | k in m && m[k] == value :: m[k]
  }

  /** The map after a line. */
  function Apply(m: map<string, string>, c: Line): map<string, string>
  {
    match c
    case Assign(k, v) => m[k := v]
    case Delete(k) => m - {k}
    case _ => m
  }

  /** What a line prints after its echo. */
  function Report(m: map<string, string>, c: Line): seq<Event>
  {
    match c
    case Skip => []
    case Query(k) => if k in m then [Pair(k, m[k])] else [KeyNotFound(k)]
    case ListAll => [Listing(m)]
    case Delete(k) => if k in m then [] else [EraseAtEnd(k)]
    case ListValue(v) => [Listing(WithValue(m, v))]
    case Assign(k, v) => [Pair(k, v)]
  }

  /** The map after the given lines. */
  function ApplyAll(m: map<string, string>, lines: seq<string>): map<string, string>
  {
    if lines == [] then m else Apply(ApplyAll(m, lines[..|lines| - 1]), Classify(lines[|lines| - 1]))
  }

  /** Everything printed for the given lines, numbered from 1. */
  function ReportAll(m: map<string, string>, fname: string, lines: seq<string>): seq<Event>
  {
    if lines == [] then []
    else
      var n := |lines|;
      ReportAll(m, fname, lines[..n - 1]) +
      [Echo(fname, n, lines[n - 1])] + Report(ApplyAll(m, lines[..n - 1]), Classify(lines[n - 1]))
  }

  /** Only assignments and deletions change the map, each at its own key. */
  lemma ApplyChanges(m: map<string, string>, line: string)
    ensures var c := Classify(line);
      (c.Assign? ==> Apply(m, c) == m[c.key := c.value]) &&
      (c.Delete? ==> c.key !in Apply(m, c) && forall k :: k != c.key ==> (k in Apply(m, c) <==> k in m)) &&
      (!c.Assign? && !c.Delete? ==> Apply(m, c) == m)
  {
  }

  /** Two lines: the second is read against the map the first left. */
  lemma {:induction false} TwoLines(m: map<string, string>, fname: string, first: string, second: string)
    ensures ApplyAll(m, [first, second]) == Apply(Apply(m, Classify(first)), Classify(second))
    ensures ReportAll(m, fname, [first, second]) ==
      [Echo(fname, 1, first)] + Report(m, Classify(first)) +
      [Echo(fname, 2, second)] + Report(Apply(m, Classify(first)), Classify(second))
  {
    var lines := [first, second];
    assert lines[..1] == [first] && lines[..1][..0] == [];
    assert ApplyAll(m, [first]) == Apply(m, Classify(first));
    assert ReportAll(m, fname, [first]) == [Echo(fname, 1, first)] + Report(m, Classify(first));
  }

  /** After "key = value", looking the key up reports that value. */
  lemma {:induction false} AssignThenQuery(m: map<string, string>, fname: string, key: string, value: string)
    requires key != [] && key[0] !in Blanks && key[|key| - 1] !in Blanks && '=' !in key && key[0] != '#'
    requires value != [] && value[0] !in Blanks && value[|value| - 1] !in Blanks
    ensures ReportAll(m, fname, [key + " = " + value, key]) ==
      [Echo(fname, 1, key + " = " + value), Pair(key, value), Echo(fname, 2, key), Pair(key, value)]
    ensures ApplyAll(m, [key + " = " + value, key]) == m[key := value]
  {
    var line := key + " = " + value;
    ClassifyAssign(key, value);
    ClassifyQuery(key);
    TwoLines(m, fname, line, key);
    Four(Echo(fname, 1, line), Pair(key, value), Echo(fname, 2, key), Pair(key, value));
  }

  lemma Four<T>(a: T, b: T, c: T, d: T)
    ensures [a] + [b] + [c] + [d] == [a, b, c, d]
  {
  }

  /** After "key =", the key is gone and a lookup of it complains. */
  lemma {:induction false} DeleteThenQuery(m: map<string, string>, fname: string, key: string)
    requires key != [] && key[0] !in Blanks && key[|key| - 1] !in Blanks && '=' !in key && key[0] != '#'
    ensures ApplyAll(m, [key + " =", key]) == m - {key}
    ensures ReportAll(m, fname, [key + " =", key]) ==
      [Echo(fname, 1, key + " =")] + (if key in m then [] else [EraseAtEnd(key)]) +
      [Echo(fname, 2, key), KeyNotFound(key)]
  {
    ClassifyQuery(key);
    ClassifyDelete(key);
    TwoLines(m, fname, key + " =", key);
  }

  /** Where "key =" splits: at its one '=', into the trimmed key and nothing. */
  lemma {:induction false} DeletionParts(key: string)
    requires key != [] && key[0] !in Blanks && key[|key| - 1] !in Blanks && '=' !in key
    ensures var line := key + " =";
      Trim(line) == line && FirstOf(line, {'='}, 0) == |key| + 1 &&
      Trim(line[..|key| + 1]) == key && line[|key| + 2..] == []
  {
    var line := key + " =";
    assert line[0] == key[0] && line[|line| - 1] == '=';
    TrimmedAlready(line, "");
    DeletionSlices(key);
    TrimmedAlready(key, " ");
  }

  /** Where "key =" splits: at the '=' after the key. */
  lemma {:induction false} DeletionSlices(key: string)
    requires '=' !in key
    ensures var line := key + " =";
      FirstOf(line, {'='}, 0) == |key| + 1 && line[..|key| + 1] == key + " " && line[|key| + 2..] == []
  {
    var line := key + " =";
    assert line == (key + " ") + "=";
    FirstEqualsIs(line, |key| + 1);
  }

  /** "key =" is read as a deletion of that key. */
  lemma {:induction false} ClassifyDelete(key: string)
    requires key != [] && key[0] !in Blanks && key[|key| - 1] !in Blanks && '=' !in key && key[0] != '#'
    ensures Classify(key + " =") == Delete(key)
  {
    DeletionParts(key);
    assert Trim([]) == [];
  }

  /** listmap<string,string>: the map scan_file updates in place. */
  class StrStrMap {
    var entries: map<string, string>

    constructor ()
      ensures entries == map[]
    {
      entries := map[];
    }

    /** listmap::insert: sets the key's value, replacing an earlier one. */
    method Insert(key: string, value: string)
      modifies this
      ensures entries == old(entries)[key := value]
    {
      entries := entries[key := value];
    }

    /** listmap::erase on the iterator find gave: the key goes; on the end iterator nothing happens here. */
    method EraseFound(key: string) returns (atEnd: bool)
      modifies this
      ensures atEnd <==> key !in old(entries)
      ensures entries == old(entries) - {key}
    {
      atEnd := key !in entries;
      entries := entries - {key};
    }
  }

  /** The body of scan_file's loop after the echo (main.cpp:50-107): one line applied to the map. */
  method ScanLine(raw: string, store: StrStrMap) returns (out: seq<Event>)
    modifies store
    ensures store.entries == Apply(old(store.entries), Classify(raw))
    ensures out == Report(old(store.entries), Classify(raw))
  {
    out := [];
    var line := Trim(raw);
    if |line| == 0 || line[0] == '#' {
      return;
    }
    var pos := FirstOf(line, {'='}, 0);
    if pos == |line| {
      if line !in store.entries {
        out := [KeyNotFound(line)];
        return;
      }
      out := [Pair(line, store.entries[line])];
    } else {
      var key := Trim(line[..pos]);
      var value := Trim(line[pos + 1..]);
      if key == [] && value == [] {
        out := [Listing(store.entries)];
      } else if value == [] {
        var atEnd := store.EraseFound(key);
        if atEnd {
          out := [EraseAtEnd(key)];
        }
      } else if key == [] {
        out := [Listing(WithValue(store.entries, value))];
      } else {
        out := [Pair(key, value)];
        store.Insert(key, value);
      }
    }
  }

  /**
   * scan_file (main.cpp:43-109) over the lines of one input: echoes each
   * line with its number, then applies it to the map.
   */
  method ScanFile(lines: seq<string>, fname: string, store: StrStrMap) returns (out: seq<Event>)
    modifies store
    ensures store.entries == ApplyAll(old(store.entries), lines)
    ensures out == ReportAll(old(store.entries), fname, lines)
  {
    out := [];
    var lnum := 1;
    while lnum <= |lines|
      invariant 1 <= lnum <= |lines| + 1
      invariant store.entries == ApplyAll(old(store.entries), lines[..lnum - 1])
      invariant out == ReportAll(old(store.entries), fname, lines[..lnum - 1])
    {
      var raw := lines[lnum - 1];
      assert lines[..lnum][..lnum - 1] == lines[..lnum - 1];
      out := out + [Echo(fname, lnum, raw)];
      var printed := ScanLine(raw, store);
      out := out + printed;
      lnum := lnum + 1;
    }
    assert lines[..|lines|] == lines;
  }
}
