/**
 * The application shell's delivery logic: parsing the signalling-node list from the
 * environment, and the send path that queues an STA in the outbox before trying the
 * direct transport and then the relay, removing the entry only on a reported success.
 */
module App {
  import opened Wrappers
  import opened Crypto
  import opened Records
  import opened Storage
  import opened State
  import opened Fallback

  // ---------------------------------------------------------------------------------
  // envSignalNodes

  /** The code points `String.prototype.trim` removes: WhiteSpace and LineTerminator of ECMAScript. */
  const JS_WHITESPACE: set<int> := {
    0x09, 0x0A, 0x0B, 0x0C, 0x0D, 0x20, 0xA0, 0x1680,
    0x2000, 0x2001, 0x2002, 0x2003, 0x2004, 0x2005, 0x2006, 0x2007, 0x2008, 0x2009, 0x200A,
    0x2028, 0x2029, 0x202F, 0x205F, 0x3000, 0xFEFF
  }

  predicate IsJsWhitespace(c: char)
  {
    c as int in JS_WHITESPACE
  }

  /** Leading whitespace removed: the longest suffix that does not start with whitespace. */
  function TrimStart(s: string): (r: string)
    ensures |r| <= |s| && r == s[|s| - |r|..]
    ensures r == [] || !IsJsWhitespace(r[0])
  {
    if s == [] || !IsJsWhitespace(s[0]) then s else TrimStart(s[1..])
  }

  /** Everything `TrimStart` removes is whitespace. */
  lemma {:induction false} TrimStartDropsWhitespace(s: string)
    ensures forall i :: 0 <= i < |s| - |TrimStart(s)| ==> IsJsWhitespace(s[i])
  {
    if s != [] && IsJsWhitespace(s[0]) {
      TrimStartDropsWhitespace(s[1..]);
      assert forall i :: 1 <= i < |s| - |TrimStart(s)| ==> s[i] == s[1..][i - 1];
    }
  }

  /** Trailing whitespace removed: the longest prefix that does not end with whitespace. */
  function TrimEnd(s: string): (r: string)
    ensures |r| <= |s| && r == s[..|r|]
    ensures r == [] || !IsJsWhitespace(r[|r| - 1])
  {
    if s == [] || !IsJsWhitespace(s[|s| - 1]) then s else TrimEnd(s[..|s| - 1])
  }

  /** Everything `TrimEnd` removes is whitespace. */
  lemma {:induction false} TrimEndDropsWhitespace(s: string)
    ensures forall i :: |TrimEnd(s)| <= i < |s| ==> IsJsWhitespace(s[i])
  {
    if s != [] && IsJsWhitespace(s[|s| - 1]) {
      TrimEndDropsWhitespace(s[..|s| - 1]);
      assert forall i :: |TrimEnd(s)| <= i < |s| - 1 ==> s[i] == s[..|s| - 1][i];
    }
  }

  /** How many whitespace characters `TrimStart` removes. */
  function LeadingWhitespace(s: string): nat
  {
    |s| - |TrimStart(s)|
  }

  /** Neither starts nor ends with whitespace. */
  predicate Trimmed(s: string)
  {
    s == [] || (!IsJsWhitespace(s[0]) && !IsJsWhitespace(s[|s| - 1]))
  }

  /** `String.prototype.trim`: a slice of `s` that neither starts nor ends with whitespace. */
  function Trim(s: string): (r: string)
    ensures Trimmed(r)
    ensures LeadingWhitespace(s) + |r| <= |s|
    ensures r == s[LeadingWhitespace(s)..LeadingWhitespace(s) + |r|]
  {
    var t := TrimStart(s);
    var r := TrimEnd(t);
    assert r == s[|s| - |t|..][..|r|] == s[|s| - |t|..|s| - |t| + |r|];
    r
  }

  /** What `Trim` removes, on either side, is whitespace only. */
  lemma {:induction false} TrimRemovesWhitespace(s: string)
    ensures forall k :: 0 <= k < LeadingWhitespace(s) ==> IsJsWhitespace(s[k])
    ensures forall k :: LeadingWhitespace(s) + |Trim(s)| <= k < |s| ==> IsJsWhitespace(s[k])
  {
    var t := TrimStart(s);
    var l := |s| - |t|;
    TrimStartDropsWhitespace(s);
    TrimEndDropsWhitespace(t);
    assert forall k :: l + |Trim(s)| <= k < |s| ==> s[k] == t[k - l];
  }

  /** A string that neither starts nor ends with whitespace is its own trim. */
  lemma TrimKeeps(s: string)
    requires Trimmed(s)
    ensures Trim(s) == s
  {
  }

  /** `String.prototype.split(',')`: the comma-free fields, empty ones included. */
  function Split(s: string): (parts: seq<string>)
    ensures |parts| >= 1
  {
    if s == [] then [""]
    else
      var rest := Split(s[1..]);
      if s[0] == ',' then [""] + rest else [[s[0]] + rest[0]] + rest[1..]
  }

  /** No field of a split contains the separator. */
  lemma {:induction false} SplitCommaFree(s: string)
    ensures forall i :: 0 <= i < |Split(s)| ==> ',' !in Split(s)[i]
  {
    if s != [] {
      SplitCommaFree(s[1..]);
      var rest := Split(s[1..]);
      if s[0] != ',' {
        assert ',' !in [s[0]] + rest[0];
      }
    }
  }

  /** `Array.prototype.join(',')`. */
  function Join(parts: seq<string>): string
  {
    if |parts| == 0 then "" else if |parts| == 1 then parts[0] else parts[0] + "," + Join(parts[1..])
  }

  /** Splitting loses nothing: joining the fields back with commas gives the input. */
  lemma {:induction false} JoinSplit(s: string)
    ensures Join(Split(s)) == s
  {
    if s != [] {
      JoinSplit(s[1..]);
      var rest := Split(s[1..]);
      if s[0] != ',' {
        var parts := Split(s);
        assert parts[1..] == rest[1..];
        if |rest| > 1 {
          assert Join(rest) == rest[0] + "," + Join(rest[1..]);
        }
      }
    }
  }

  /** A comma-free prefix joins the first field. */
  lemma {:induction false} SplitPrefix(w: string, t: string)
    requires ',' !in w
    ensures Split(w + t) == [w + Split(t)[0]] + Split(t)[1..]
  {
    if w != [] {
      SplitPrefix(w[1..], t);
      assert (w + t)[1..] == w[1..] + t;
      assert [w[0]] + (w[1..] + Split(t)[0]) == w + Split(t)[0];
    } else {
      assert w + t == t;
      assert w + Split(t)[0] == Split(t)[0];
      assert [Split(t)[0]] + Split(t)[1..] == Split(t);
    }
  }

  /** Joining comma-free fields and splitting again gives the fields back. */
  lemma {:induction false} SplitJoin(parts: seq<string>)
    requires |parts| >= 1
    requires forall i :: 0 <= i < |parts| ==> ',' !in parts[i]
    ensures Split(Join(parts)) == parts
  {
    if |parts| == 1 {
      SplitPrefix(parts[0], "");
      assert parts[0] + "" == parts[0];
    } else {
      SplitJoin(parts[1..]);
      var t := "," + Join(parts[1..]);
      assert Join(parts) == parts[0] + t;
      SplitPrefix(parts[0], t);
      assert t[1..] == Join(parts[1..]);
      assert Split(t) == [""] + parts[1..];
      assert parts[0] + "" == parts[0];
    }
  }

  /** The first element and the rest of a concatenation whose first part is not empty. */
  lemma HeadTail<T>(a: seq<T>, b: seq<T>)
    requires a != []
    ensures (a + b)[0] == a[0] && (a + b)[1..] == a[1..] + b
  {
  }

  /** Concatenation is associative at a first element. */
  lemma ConsAppend<T>(h: T, x: seq<T>, y: seq<T>)
    ensures [h] + (x + y) == ([h] + x) + y
  {
  }

  /** `.map(s => s.trim())`: field `i` of the result is the trim of field `i`. */
  function TrimEach(parts: seq<string>): (r: seq<string>)
    ensures |r| == |parts|
    ensures forall i {:trigger r[i]} :: 0 <= i < |parts| ==> r[i] == Trim(parts[i])
  {
    seq(|parts|, i requires 0 <= i < |parts| => Trim(parts[i]))
  }

  /** Mapping distributes over concatenation. */
  lemma {:induction false} TrimEachAppend(a: seq<string>, b: seq<string>)
    ensures TrimEach(a + b) == TrimEach(a) + TrimEach(b)
  {
    var l, r := TrimEach(a + b), TrimEach(a) + TrimEach(b);
    forall i | 0 <= i < |l|
      ensures l[i] == r[i]
    {
      if i < |a| {
        assert (a + b)[i] == a[i];
      } else {
        assert (a + b)[i] == b[i - |a|];
      }
    }
  }

  /** `.filter(Boolean)` on strings: the empty ones dropped, every other one kept as often as it occurs. */
  function NonEmpty(parts: seq<string>): (r: seq<string>)
    ensures "" !in r
    ensures forall x :: x != "" ==> multiset(r)[x] == multiset(parts)[x]
    ensures forall x :: x in r <==> x in parts && x != ""
  {
    if parts == [] then []
    else
      assert parts == [parts[0]] + parts[1..];
      (if parts[0] == "" then [] else [parts[0]]) + NonEmpty(parts[1..])
  }

  /** Filtering keeps the order: it distributes over concatenation. */
  lemma {:induction false} NonEmptyAppend(a: seq<string>, b: seq<string>)
    ensures NonEmpty(a + b) == NonEmpty(a) + NonEmpty(b)
  {
    if a == [] {
      assert a + b == b;
    } else {
      NonEmptyAppend(a[1..], b);
      var head := if a[0] == "" then [] else [a[0]];
      HeadTail(a, b);
      calc {
        NonEmpty(a + b);
        head + NonEmpty(a[1..] + b);
        head + (NonEmpty(a[1..]) + NonEmpty(b));
        (head + NonEmpty(a[1..])) + NonEmpty(b);
        NonEmpty(a) + NonEmpty(b);
      }
    }
  }

  /**
   * `envSignalNodes`: no nodes when the variable is undefined or blank; otherwise the
   * comma-separated fields, each trimmed, the empty ones dropped.
   */
  function EnvSignalNodes(raw: Option<string>): (nodes: seq<string>)
    ensures raw.None? || Trim(raw.value) == "" ==> nodes == []
    ensures forall n :: n in nodes ==> n != "" && ',' !in n && Trim(n) == n
    ensures raw.Some? ==> var fields := Split(Trim(raw.value));
      forall i :: 0 <= i < |fields| && Trim(fields[i]) != "" ==> Trim(fields[i]) in nodes
  {
    if raw.None? then []
    else
      var t := Trim(raw.value);
      FieldNodes(t);
      if t == "" then [] else NonEmpty(TrimEach(Split(t)))
  }

  /** Trimming a comma-free field gives a comma-free field that trimming leaves alone. */
  lemma {:induction false} TrimField(x: string)
    requires ',' !in x
    ensures ',' !in Trim(x) && Trim(Trim(x)) == Trim(x)
  {
    var r := Trim(x);
    assert ',' !in r by {
      var l := LeadingWhitespace(x);
      assert r == x[l..l + |r|];
      forall k | 0 <= k < |r|
        ensures r[k] != ','
      {
        assert r[k] == x[l + k];
      }
    }
    TrimKeeps(r);
  }

  /** The trimmed fields are comma-free and trimmed, and each non-blank field's trim is among them. */
  lemma {:induction false} TrimEachFields(fields: seq<string>)
    requires forall i :: 0 <= i < |fields| ==> ',' !in fields[i]
    ensures forall n :: n in TrimEach(fields) ==> ',' !in n && Trim(n) == n
    ensures forall i :: 0 <= i < |fields| ==> Trim(fields[i]) in TrimEach(fields)
  {
    var r := TrimEach(fields);
    forall n | n in r
      ensures ',' !in n && Trim(n) == n
    {
      var i :| 0 <= i < |r| && r[i] == n;
      TrimField(fields[i]);
    }
    forall i | 0 <= i < |fields|
      ensures Trim(fields[i]) in r
    {
      assert r[i] == Trim(fields[i]);
    }
  }

  /** The non-blank trimmed fields are comma-free and trimmed, and every non-blank field's trim is among them. */
  lemma {:induction false} NodesOfFields(fields: seq<string>)
    requires forall i :: 0 <= i < |fields| ==> ',' !in fields[i]
    ensures var nodes := NonEmpty(TrimEach(fields));
      && (forall n :: n in nodes ==> n != "" && ',' !in n && Trim(n) == n)
      && (forall i :: 0 <= i < |fields| && Trim(fields[i]) != "" ==> Trim(fields[i]) in nodes)
  {
    TrimEachFields(fields);
  }

  /** The kept fields of a setting are well-formed, none of its non-blank fields is lost, and a blank setting keeps none. */
  lemma {:induction false} FieldNodes(t: string)
    ensures var fields := Split(t); var nodes := NonEmpty(TrimEach(fields));
      && (t == "" ==> nodes == [])
      && (forall n :: n in nodes ==> n != "" && ',' !in n && Trim(n) == n)
      && (forall i :: 0 <= i < |fields| && Trim(fields[i]) != "" ==> Trim(fields[i]) in nodes)
  {
    SplitCommaFree(t);
    NodesOfFields(Split(t));
    if t == "" {
      BlankFields();
    }
  }

  /** A well-formed node (non-empty, comma-free, trimmed). */
  predicate IsNodeUrl(n: string)
  {
    n != "" && ',' !in n && Trim(n) == n
  }

  lemma {:induction false} NonEmptyKeeps(parts: seq<string>)
    requires forall i :: 0 <= i < |parts| ==> parts[i] != ""
    ensures NonEmpty(parts) == parts
  {
    if parts != [] {
      NonEmptyKeeps(parts[1..]);
    }
  }

  lemma {:induction false} JoinEnds(parts: seq<string>)
    requires |parts| >= 1
    requires forall i :: 0 <= i < |parts| ==> parts[i] != ""
    ensures |Join(parts)| > 0
    ensures Join(parts)[0] == parts[0][0]
    ensures Join(parts)[|Join(parts)| - 1] == parts[|parts| - 1][|parts[|parts| - 1]| - 1]
  {
    if |parts| > 1 {
      if |parts| > 2 {
        JoinEnds(parts[1..]);
      } else {
        assert Join(parts[1..]) == parts[1];
      }
    }
  }

  /** Round trip: a list of well-formed nodes joined with commas parses back to itself. */
  lemma {:induction false} EnvSignalNodesOfJoin(nodes: seq<string>)
    requires forall i :: 0 <= i < |nodes| ==> IsNodeUrl(nodes[i])
    ensures EnvSignalNodes(Some(Join(nodes))) == nodes
  {
    if nodes == [] {
      assert Join(nodes) == "";
    } else {
      var s := Join(nodes);
      JoinTrimmed(nodes);
      ParseTrimmed(s);
      assert Split(s) == nodes by { SplitJoin(nodes); }
      assert TrimEach(nodes) == nodes by { TrimEachKeeps(nodes); }
      assert NonEmpty(nodes) == nodes by { NonEmptyKeeps(nodes); }
    }
  }

  /** A trimmed, non-empty setting is split, each field trimmed, the empty ones dropped. */
  lemma ParseTrimmed(s: string)
    requires s != "" && Trim(s) == s
    ensures EnvSignalNodes(Some(s)) == NonEmpty(TrimEach(Split(s)))
  {
  }

  /** A string that is its own trim neither starts nor ends with whitespace. */
  lemma TrimmedEnds(n: string)
    requires Trim(n) == n
    ensures Trimmed(n)
  {
  }

  /** Joined well-formed nodes are already trimmed and non-empty. */
  lemma {:induction false} JoinTrimmed(nodes: seq<string>)
    requires |nodes| >= 1
    requires forall i :: 0 <= i < |nodes| ==> IsNodeUrl(nodes[i])
    ensures Join(nodes) != "" && Trim(Join(nodes)) == Join(nodes)
  {
    var first, last := nodes[0], nodes[|nodes| - 1];
    assert IsNodeUrl(first) && IsNodeUrl(last);
    TrimmedEnds(first);
    TrimmedEnds(last);
    JoinEndsTrimmed(nodes);
  }

  /** Nodes that are non-empty, with a trimmed first and last one, join to a trimmed string. */
  lemma {:induction false} JoinEndsTrimmed(nodes: seq<string>)
    requires |nodes| >= 1
    requires forall i :: 0 <= i < |nodes| ==> nodes[i] != ""
    requires Trimmed(nodes[0]) && Trimmed(nodes[|nodes| - 1])
    ensures Join(nodes) != "" && Trim(Join(nodes)) == Join(nodes)
  {
    var s := Join(nodes);
    JoinEnds(nodes);
    assert Trimmed(s);
    TrimKeeps(s);
  }

  lemma TrimEachKeeps(nodes: seq<string>)
    requires forall i :: 0 <= i < |nodes| ==> IsNodeUrl(nodes[i])
    ensures TrimEach(nodes) == nodes
  {
  }

  /** Every character is ECMAScript whitespace. */
  predicate AllWhitespace(w: string)
  {
    forall i :: 0 <= i < |w| ==> IsJsWhitespace(w[i])
  }

  /** Whitespace holds no comma and trims away entirely from either side. */
  lemma AllWhitespaceTrims(w: string)
    requires AllWhitespace(w)
    ensures ',' !in w && TrimStart(w) == [] && TrimEnd(w) == []
  {
  }

  /** `TrimStart` of a concatenation: the second part matters only when the first trims away. */
  lemma {:induction false} TrimStartAppend(a: string, b: string)
    ensures TrimStart(a + b) == if TrimStart(a) == [] then TrimStart(b) else TrimStart(a) + b
  {
    if a == [] {
      assert a + b == b;
    } else if !IsJsWhitespace(a[0]) {
      HeadTail(a, b);
      assert TrimStart(a + b) == a + b;
      assert TrimStart(a) == a;
    } else {
      TrimStartAppend(a[1..], b);
      HeadTail(a, b);
      assert TrimStart(a + b) == TrimStart(a[1..] + b);
      assert TrimStart(a) == TrimStart(a[1..]);
    }
  }

  /** `TrimEnd` of a concatenation: the first part matters only when the second trims away. */
  lemma {:induction false} TrimEndAppend(a: string, b: string)
    ensures TrimEnd(a + b) == if TrimEnd(b) == [] then TrimEnd(a) else a + TrimEnd(b)
  {
    if b == [] {
      assert a + b == a;
    } else {
      assert (a + b)[|a + b| - 1] == b[|b| - 1];
      if IsJsWhitespace(b[|b| - 1]) {
        TrimEndAppend(a, b[..|b| - 1]);
        assert (a + b)[..|a + b| - 1] == a + b[..|b| - 1];
      }
    }
  }

  /** Whitespace in front of a string does not change its trim. */
  lemma {:induction false} TrimPadStart(w: string, f: string)
    requires AllWhitespace(w)
    ensures Trim(w + f) == Trim(f)
  {
    AllWhitespaceTrims(w);
    TrimStartAppend(w, f);
  }

  /** Whitespace after a string does not change its trim. */
  lemma {:induction false} TrimPadEnd(f: string, w: string)
    requires AllWhitespace(w)
    ensures Trim(f + w) == Trim(f)
  {
    AllWhitespaceTrims(w);
    TrimStartAppend(f, w);
    TrimEndAppend(TrimStart(f), w);
  }

  /** The step of `SplitAppend` past a leading character other than a comma. */
  lemma {:induction false} AppendAfterChar(a: string, b: string)
    requires a != [] && a[0] != ','
    requires Split(a[1..] + "," + b) == Split(a[1..]) + Split(b)
    ensures Split(a + "," + b) == Split(a) + Split(b)
  {
    var x, y, s := Split(a[1..]), Split(b), a + "," + b;
    var h := [a[0]] + x[0];
    assert Split(s) == [h] + (x[1..] + y) by {
      assert s[0] == a[0] && s[1..] == a[1..] + "," + b;
      HeadTail(x, y);
    }
    assert Split(a) == [h] + x[1..];
    ConsAppend(h, x[1..], y);
  }

  /** Splitting at a comma: the fields of both sides, in order. */
  lemma {:induction false} SplitAppend(a: string, b: string)
    ensures Split(a + "," + b) == Split(a) + Split(b)
  {
    var s := a + "," + b;
    if a == [] {
      assert s == "," + b && s[1..] == b;
      assert Split(s) == [""] + Split(b);
    } else {
      SplitAppend(a[1..], b);
      if a[0] == ',' {
        var x, y := Split(a[1..]), Split(b);
        assert Split(s) == [""] + (x + y) by {
          assert s[0] == ',' && s[1..] == a[1..] + "," + b;
        }
        ConsAppend("", x, y);
      } else {
        AppendAfterChar(a, b);
      }
    }
  }

  /** `w` appended to the last of the fields `f`. */
  function ExtendLast(f: seq<string>, w: string): seq<string>
    requires |f| >= 1
  {
    f[..|f| - 1] + [f[|f| - 1] + w]
  }

  /** The step of `SplitSuffix` past a leading comma. */
  lemma {:induction false} SuffixAfterComma(t: string, w: string)
    requires t != [] && t[0] == ','
    requires Split(t[1..] + w) == ExtendLast(Split(t[1..]), w)
    ensures Split(t + w) == ExtendLast(Split(t), w)
  {
    HeadTail(t, w);
    var f' := Split(t[1..]);
    assert Split(t) == [""] + f';
    assert Split(t + w) == [""] + ExtendLast(f', w);
  }

  /** `ExtendLast` on a list of fields: it reaches only the last one. */
  lemma {:induction false} ExtendLastCons(f: seq<string>, w: string)
    requires |f| >= 1
    ensures ExtendLast(f, w) == if |f| == 1 then [f[0] + w] else [f[0]] + ExtendLast(f[1..], w)
  {
    if |f| > 1 {
      assert f[..|f| - 1] == [f[0]] + f[1..][..|f| - 2];
      assert f[|f| - 1] == f[1..][|f| - 2];
    }
  }

  /** The step of `SplitSuffix` past a leading character other than a comma. */
  lemma {:induction false} SuffixAfterChar(t: string, w: string)
    requires t != [] && t[0] != ','
    requires Split(t[1..] + w) == ExtendLast(Split(t[1..]), w)
    ensures Split(t + w) == ExtendLast(Split(t), w)
  {
    HeadTail(t, w);
    var f', g, c := Split(t[1..]), Split(t[1..] + w), [t[0]];
    var f := Split(t);
    assert Split(t + w) == [c + g[0]] + g[1..];
    assert f == [c + f'[0]] + f'[1..];
    ExtendLastCons(f', w);
    ExtendLastCons(f, w);
    if |f'| == 1 {
      assert c + (f'[0] + w) == (c + f'[0]) + w;
    } else {
      assert f[0] == c + f'[0] && f[1..] == f'[1..];
    }
  }

  /** A comma-free suffix extends the last field. */
  lemma {:induction false} SplitSuffix(t: string, w: string)
    requires ',' !in w
    ensures Split(t + w) == ExtendLast(Split(t), w)
  {
    if t == [] {
      SplitPrefix(w, "");
      assert t + w == w + "";
    } else {
      SplitSuffix(t[1..], w);
      if t[0] == ',' {
        SuffixAfterComma(t, w);
      } else {
        SuffixAfterChar(t, w);
      }
    }
  }



  /** A string is its leading whitespace followed by what `TrimStart` keeps. */
  lemma {:induction false} StartSplit(s: string)
    ensures var l := LeadingWhitespace(s); AllWhitespace(s[..l]) && s == s[..l] + TrimStart(s)
  {
    var l := LeadingWhitespace(s);
    TrimStartDropsWhitespace(s);
    assert forall i :: 0 <= i < l ==> s[..l][i] == s[i];
  }

  /** A string is what `TrimEnd` keeps followed by its trailing whitespace. */
  lemma {:induction false} EndSplit(t: string)
    ensures var e := TrimEnd(t); AllWhitespace(t[|e|..]) && t == e + t[|e|..]
  {
    var e := TrimEnd(t);
    TrimEndDropsWhitespace(t);
    assert forall i :: 0 <= i < |t| - |e| ==> t[|e|..][i] == t[|e| + i];
  }

  /** Whitespace after the last field does not change the trimmed fields. */
  lemma {:induction false} TrimEachPadLast(f: seq<string>, z: string)
    requires |f| >= 1 && AllWhitespace(z)
    ensures TrimEach(ExtendLast(f, z)) == TrimEach(f)
  {
    var n := |f|;
    var g := ExtendLast(f, z);
    forall i | 0 <= i < n
      ensures TrimEach(g)[i] == TrimEach(f)[i]
    {
      if i == n - 1 {
        TrimPadEnd(f[i], z);
      } else {
        assert g[i] == f[i];
      }
    }
  }

  /** Mapping a list with a first element: the first trim, then the rest. */
  lemma {:induction false} TrimEachCons(x: string, g: seq<string>)
    ensures TrimEach([x] + g) == [Trim(x)] + TrimEach(g)
  {
    TrimEachAppend([x], g);
    assert TrimEach([x]) == [Trim(x)] by {
      assert TrimEach([x])[0] == Trim(x);
    }
  }

  /** Whitespace before the first field does not change the trimmed fields. */
  lemma {:induction false} TrimEachPadFirst(a: string, g: seq<string>)
    requires |g| >= 1 && AllWhitespace(a)
    ensures TrimEach([a + g[0]] + g[1..]) == TrimEach(g)
  {
    calc {
      TrimEach([a + g[0]] + g[1..]);
      { TrimEachCons(a + g[0], g[1..]); }
      [Trim(a + g[0])] + TrimEach(g[1..]);
      { TrimPadStart(a, g[0]); }
      [Trim(g[0])] + TrimEach(g[1..]);
      { TrimEachCons(g[0], g[1..]); }
      TrimEach([g[0]] + g[1..]);
      { assert [g[0]] + g[1..] == g; }
      TrimEach(g);
    }
  }

  /** Whitespace around a setting reaches only its first and last field, and not their trims. */
  lemma {:induction false} PaddedFields(a: string, t: string, z: string)
    requires AllWhitespace(a) && AllWhitespace(z)
    ensures TrimEach(Split(a + (t + z))) == TrimEach(Split(t))
  {
    AllWhitespaceTrims(a);
    AllWhitespaceTrims(z);
    SplitSuffix(t, z);
    TrimEachPadLast(Split(t), z);
    SplitPrefix(a, t + z);
    TrimEachPadFirst(a, Split(t + z));
  }

  /** Trimming the whole string before splitting does not change the trimmed fields. */
  lemma {:induction false} FieldsOfTrim(s: string)
    ensures TrimEach(Split(s)) == TrimEach(Split(Trim(s)))
  {
    var l := LeadingWhitespace(s);
    var a, t := s[..l], TrimStart(s);
    StartSplit(s);
    var e := TrimEnd(t);
    EndSplit(t);
    var z := t[|e|..];
    assert Trim(s) == e;
    PaddedFields(a, e, z);
    assert a + (e + z) == s;
  }

  /** A blank setting yields no fields worth keeping. */
  lemma BlankFields()
    ensures NonEmpty(TrimEach(Split(""))) == []
  {
    assert Split("") == [""];
    assert TrimEach([""]) == [""];
    assert NonEmpty([""]) == [];
  }

  /**
   * Trimming the whole setting first changes nothing: the nodes are the trimmed fields of
   * the raw setting, the blank ones dropped, in order.
   */
  lemma {:induction false} EnvSignalNodesFields(s: string)
    ensures EnvSignalNodes(Some(s)) == NonEmpty(TrimEach(Split(s)))
  {
    FieldsOfTrim(s);
    if Trim(s) == "" {
      BlankFields();
    }
  }

  /** The nodes of two settings joined by a comma are the nodes of the first, then those of the second. */
  lemma {:induction false} EnvSignalNodesConcat(a: string, b: string)
    ensures EnvSignalNodes(Some(a + "," + b)) == EnvSignalNodes(Some(a)) + EnvSignalNodes(Some(b))
  {
    EnvSignalNodesFields(a + "," + b);
    EnvSignalNodesFields(a);
    EnvSignalNodesFields(b);
    SplitAppend(a, b);
    TrimEachAppend(Split(a), Split(b));
    NonEmptyAppend(TrimEach(Split(a)), TrimEach(Split(b)));
  }

  // ---------------------------------------------------------------------------------
  // The send path

  /** The outcomes of the network steps, which the model does not perform. */
  datatype Network = Network(
    hrd: Option<Hrd>,         // `queryHRD(to)`: the descriptor, or null on timeout
    directOpens: bool,        // whether the data channel opens before the direct transport's timeout
    uploadOk: Option<bool>)   // the `ok` of the upload response; None when the key export or the fetch throws

  /** What the send path does, in order. */
  datatype Event =
    | Enqueued(sta: STA)
    | EnqueueStalled(nonce: string)
    | HrdQueried(to: string)
    | DirectAttempted(delivered: bool)
    | UploadAttempted(upload: Upload, response: Option<bool>)
    | Dequeued(nonce: string)

  /** `DirectTransport.send`: false unless the HRD advertises `webrtc`; then whether the channel opened. */
  function DirectSend(hrd: Hrd, opens: bool): (delivered: bool)
    ensures delivered ==> opens
    ensures delivered <==> (opens && hrd.reachability.Some? && hrd.reachability.value.direct.Some?
                            && hrd.reachability.value.direct.value.webrtc == Some(true))
  {
    match hrd.reachability
    case Some(Reachability(Some(DirectReach(Some(true))), _)) => opens
    case _ => false
  }

  /** A JavaScript-truthy string setting: defined and non-empty. */
  predicate Configured(setting: Option<string>)
  {
    setting.Some? && setting.value != ""
  }

  function ChatPayload(text: string): Json
  {
    JObj([("text", JStr(text))])
  }

  /** The direct channel delivered: signalling on, an HRD came back, and its data channel opened. */
  predicate DirectDelivered(signal: bool, net: Network)
  {
    signal && net.hrd.Some? && DirectSend(net.hrd.value, net.directOpens)
  }

  /** The transit gateway is tried: an HRD came back, the direct channel failed, a gateway is set. */
  predicate TriesTransit(signal: bool, transitBase: Option<string>, net: Network)
  {
    signal && net.hrd.Some? && !DirectDelivered(signal, net) && Configured(transitBase)
  }

  /** Some transport reported success. */
  predicate Delivered(signal: bool, transitBase: Option<string>, net: Network)
  {
    DirectDelivered(signal, net) || (TriesTransit(signal, transitBase, net) && net.uploadOk == Some(true))
  }

  /** The network attempts `sendSTA` makes, in order. */
  function Attempts(p: Primitives, hik: Hik, signal: bool, transitBase: Option<string>, to: string,
                    sta: STA, net: Network): seq<Event>
  {
    (if signal then [HrdQueried(to)] else [])
    + (if signal && net.hrd.Some? then [DirectAttempted(DirectDelivered(signal, net))] else [])
    + (if TriesTransit(signal, transitBase, net)
       then [UploadAttempted(SendToTransit(transitBase, sta, net.hrd.value, p.exportJwk(hik.signPublicKey)).value,
                             net.uploadOk)]
       else [])
  }

  class ChatApp {
    var db: Database?
    var hik: Option<Hik>
    /** Whether a signalling client exists (some signalling node was configured). */
    var signal: bool
    var pending: nat
    /** `VITE_TRANSIT_BASE`. */
    const transitBase: Option<string>

    constructor (transitBase: Option<string>)
      ensures db == null && hik.None? && !signal && pending == 0 && this.transitBase == transitBase
    {
      db, hik, signal, pending := null, None, false, 0;
      this.transitBase := transitBase;
    }

    /** `updatePending`: the pending counter becomes the number of outbox entries. */
    method UpdatePending(db: Database)
      modifies this`pending
      ensures pending == |db.outbox|
    {
      pending := |db.outbox|;
    }

    /** `deleteFromOutbox`: only the entry under `nonce` goes; an absent nonce changes nothing. */
    method DeleteFromOutbox(db: Database, nonce: string)
      requires db.Valid()
      modifies db`outbox
      ensures db.Valid()
      ensures db.outbox == old(db.outbox) - {nonce}
      ensures nonce !in old(db.outbox) ==> db.outbox == old(db.outbox)
    {
      db.OutboxDelete(nonce);
    }

    /**
     * `sendSTA`. `now` and `nonce` stand for the clock and `crypto.randomUUID()`, `net` for
     * the network outcomes. The returned events say what happened, in order.
     */
    method SendSTA(p: Primitives, to: string, text: string, now: nat, nonce: string, net: Network)
      returns (events: seq<Event>)
      requires db != null ==> db.Valid()
      modifies this`pending, db
      ensures db != null ==> db.Valid()
      // only the outbox changes
      ensures db != null ==>
        && db.LedgerView() == old(db.LedgerView()) && db.identity == old(db.identity)
        && db.objectStores == old(db.objectStores) && db.proofs == old(db.proofs) && db.inbox == old(db.inbox)
      // nothing happens before the database and the identity are ready
      ensures db == null || hik.None? ==>
        events == [] && pending == old(pending) && (db != null ==> db.outbox == old(db.outbox))
      // an outbox entry already under this nonce makes the add fail, and the call never resumes
      ensures db != null && hik.Some? && nonce in old(db.outbox) ==>
        events == [EnqueueStalled(nonce)] && db.outbox == old(db.outbox) && pending == old(pending)
      // otherwise the entry is queued first, and leaves the outbox exactly when a transport delivered it
      ensures db != null && hik.Some? && nonce !in old(db.outbox) ==>
        var sta := CreateSTA(p, db.chain, hik.value, CHAT_APPEND, to, ChatPayload(text), now, nonce);
        var delivered := Delivered(signal, transitBase, net);
        && events == [Enqueued(sta)] + Attempts(p, hik.value, signal, transitBase, to, sta, net)
                     + (if delivered then [Dequeued(nonce)] else [])
        && db.outbox == (if delivered then old(db.outbox) else old(db.outbox)[nonce := sta])
        && pending == |db.outbox|
    {
      if db == null || hik.None? {
        return [];
      }
      events := SendWith(db, hik.value, p, to, text, now, nonce, net);
    }

    /** The body of `sendSTA` once the database and the identity are ready. */
    method SendWith(store: Database, id: Hik, p: Primitives, to: string, text: string, now: nat, nonce: string,
                    net: Network)
      returns (events: seq<Event>)
      requires store.Valid()
      modifies this`pending, store`outbox
      ensures store.Valid()
      ensures nonce in old(store.outbox) ==>
        events == [EnqueueStalled(nonce)] && store.outbox == old(store.outbox) && pending == old(pending)
      ensures nonce !in old(store.outbox) ==>
        var sta := CreateSTA(p, store.chain, id, CHAT_APPEND, to, ChatPayload(text), now, nonce);
        var delivered := Delivered(signal, transitBase, net);
        && events == [Enqueued(sta)] + Attempts(p, id, signal, transitBase, to, sta, net)
                     + (if delivered then [Dequeued(nonce)] else [])
        && store.outbox == (if delivered then old(store.outbox) else old(store.outbox)[nonce := sta])
        && pending == |store.outbox|
    {
      var sta := CreateSTA(p, store.chain, id, CHAT_APPEND, to, ChatPayload(text), now, nonce);
      ghost var queued := store.outbox;

      // The outbox records the intent to deliver before any network attempt.
      var added := store.OutboxAdd(sta);
      if !added {
        return [EnqueueStalled(nonce)];
      }
      UpdatePending(store);
      var success, attempts := TryDeliver(store, p, id, to, sta, net);
      events := [Enqueued(sta)] + attempts;
      if success {
        DeleteFromOutbox(store, sta.nonce);
        assert store.outbox == queued by {
          assert queued[nonce := sta] - {nonce} == queued;
        }
        events := events + [Dequeued(sta.nonce)];
        UpdatePending(store);
      }
    }

    /**
     * The network half of `sendSTA`: with signalling on, the recipient's HRD is queried, the
     * direct channel is tried when an HRD came back, and the transit gateway when the direct
     * channel failed and a gateway is configured. A thrown export or fetch counts as a failure.
     * The STA must already be queued in `store`'s outbox: nothing goes out that a crash could lose.
     */
    method TryDeliver(store: Database, p: Primitives, hik: Hik, to: string, sta: STA, net: Network)
      returns (success: bool, events: seq<Event>)
      requires sta.nonce in store.outbox && store.outbox[sta.nonce] == sta
      ensures success <==> Delivered(signal, transitBase, net)
      ensures events == Attempts(p, hik, signal, transitBase, to, sta, net)
      ensures !signal ==> !success && events == []
    {
      success := false;
      events := [];
      if signal {
        events := events + [HrdQueried(to)];
        var toHrd := net.hrd;
        if toHrd.Some? {
          success := DirectSend(toHrd.value, net.directOpens);
          events := events + [DirectAttempted(success)];
        }
        if !success && toHrd.Some? && Configured(transitBase) {
          var senderSignPublicJwk := p.exportJwk(hik.signPublicKey);
          var upload := SendToTransit(transitBase, sta, toHrd.value, senderSignPublicJwk).value;
          events := events + [UploadAttempted(upload, net.uploadOk)];
          success := net.uploadOk == Some(true);
        }
      }
    }
  }
}
