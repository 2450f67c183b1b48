/** The parts of Python's string handling the puzzles rely on: `strip`,
    `str.split` with and without a separator, `str.index`, and `int()` on
    decimal text. Only ASCII whitespace and ASCII digits are modelled. */
module Text {
  import opened Common

  /** `str.isspace` restricted to ASCII. */
  predicate IsSpace(c: char)
  {
    c == ' ' || ('\t' <= c <= '\r') || ('\U{1C}' <= c <= '\U{1F}')
  }

  predicate IsDigit(c: char)
  {
    '0' <= c <= '9'
  }

  predicate AllDigits(s: string)
  {
    forall i :: 0 <= i < |s| ==> IsDigit(s[i])
  }

  predicate NoSpace(s: string)
  {
    forall i :: 0 <= i < |s| ==> !IsSpace(s[i])
  }

  function LStrip(s: string): (r: string)
    ensures |r| <= |s| && r == s[|s| - |r|..]
    ensures r == [] || !IsSpace(r[0])
    ensures forall i :: 0 <= i < |s| - |r| ==> IsSpace(s[i])
  {
    if s != [] && IsSpace(s[0]) then LStrip(s[1..]) else s
  }

  function RStrip(s: string): (r: string)
    ensures |r| <= |s| && r == s[..|r|]
    ensures r == [] || !IsSpace(r[|r| - 1])
    ensures forall i :: |r| <= i < |s| ==> IsSpace(s[i])
  {
    if s != [] && IsSpace(s[|s| - 1]) then RStrip(s[..|s| - 1]) else s
  }

  /** `str.strip()`: drops leading and trailing whitespace. */
  function Strip(s: string): (r: string)
  {
    RStrip(LStrip(s))
  }

  lemma StripNoSpace(s: string)
    requires NoSpace(s)
    ensures Strip(s) == s
  {
  }

  /** The value of a run of decimal digits, most significant first. */
  function DigitsValue(s: string): (n: nat)
    requires AllDigits(s)
  {
    if s == [] then 0 else DigitsValue(s[..|s| - 1]) * 10 + (s[|s| - 1] - '0') as nat
  }

  /** Digits, with single underscores allowed between two digits, as
      `int()` accepts them: "1_000" but not "_1", "1_" or "1__0". */
  predicate Grouped(s: string)
  {
    && s != [] && IsDigit(s[0]) && IsDigit(s[|s| - 1])
    && (forall i :: 0 <= i < |s| ==> IsDigit(s[i]) || s[i] == '_')
    && (forall i :: 0 <= i < |s| - 1 ==> s[i] == '_' ==> s[i + 1] != '_')
  }

  /** `s` with its underscores removed. */
  function Ungrouped(s: string): (r: string)
  {
    if s == [] then []
    else Ungrouped(s[..|s| - 1]) + (if s[|s| - 1] == '_' then [] else [s[|s| - 1]])
  }

  /** Python's `int(text)` for base-10 text: surrounding whitespace is ignored,
      an optional sign is allowed, and at least one digit must follow, with
      single underscores allowed between digits. `None` stands for the
      `ValueError` Python raises otherwise. */
  function ParseInt(s: string): (r: Option<int>)
    ensures r.Some? ==> Strip(s) != []
  {
    var t := Strip(s);
    if t == [] then None
    else
      var neg := t[0] == '-';
      var body := if t[0] == '-' || t[0] == '+' then t[1..] else t;
      if !Grouped(body) then None
      else
        UngroupedDigitsOnly(body);
        var v: int := DigitsValue(Ungrouped(body));
        Some(if neg then -v else v)
  }

  /** Digits and underscores leave digits once the underscores are gone. */
  lemma {:induction false} UngroupedDigitsOnly(s: string)
    requires forall i :: 0 <= i < |s| ==> IsDigit(s[i]) || s[i] == '_'
    ensures AllDigits(Ungrouped(s))
  {
    if s != [] {
      UngroupedDigitsOnly(s[..|s| - 1]);
    }
  }

  /** A run of digits is grouped text that reads as itself. */
  lemma DigitsGrouped(s: string)
    requires s != [] && AllDigits(s)
    ensures Grouped(s) && Ungrouped(s) == s
  {
    UngroupedDigits(s);
  }

  /** Removing underscores works piece by piece. */
  lemma {:induction false} UngroupedConcat(a: string, b: string)
    ensures Ungrouped(a + b) == Ungrouped(a) + Ungrouped(b)
    decreases |b|
  {
    if b == [] {
      assert a + b == a;
    } else {
      assert (a + b)[..|a + b| - 1] == a + b[..|b| - 1];
      UngroupedConcat(a, b[..|b| - 1]);
    }
  }

  /** Text without underscores is left as it is. */
  lemma {:induction false} UngroupedDigits(s: string)
    requires AllDigits(s)
    ensures Ungrouped(s) == s
  {
    if s != [] {
      UngroupedDigits(s[..|s| - 1]);
    }
  }

  /** Grouped text, with no sign and no surrounding space, reads as its digits. */
  lemma ParseIntGrouped(s: string)
    requires Grouped(s)
    ensures AllDigits(Ungrouped(s)) && ParseInt(s) == Some(DigitsValue(Ungrouped(s)) as int)
  {
    UngroupedDigitsOnly(s);
    assert NoSpace(s) by {
      forall i | 0 <= i < |s| ensures !IsSpace(s[i]) {
        assert IsDigit(s[i]) || s[i] == '_';
      }
    }
    StripNoSpace(s);
  }

  /** Two runs of digits joined by one underscore are grouped text. */
  lemma JoinGrouped(a: string, b: string)
    requires a != [] && b != [] && AllDigits(a) && AllDigits(b)
    ensures Grouped(a + "_" + b)
  {
    var s := a + "_" + b;
    assert s[0] == a[0] && s[|s| - 1] == b[|b| - 1];
    forall i | 0 <= i < |s| ensures if i == |a| then s[i] == '_' else IsDigit(s[i]) {
      if i < |a| {
        assert s[i] == a[i];
      } else if i > |a| {
        assert s[i] == b[i - |a| - 1];
      }
    }
  }

  lemma JoinUngrouped(a: string, b: string)
    requires AllDigits(a) && AllDigits(b)
    ensures Ungrouped(a + "_" + b) == a + b
  {
    UngroupedDigits(a);
    UngroupedDigits(b);
    assert Ungrouped(a + "_") == a by {
      assert (a + "_")[..|a|] == a;
    }
    UngroupedConcat(a + "_", b);
  }

  /** An underscore between two runs of digits does not change the value:
      `int("1_000") == int("1000")`. */
  lemma ParseIntUnderscore(a: string, b: string)
    requires a != [] && b != [] && AllDigits(a) && AllDigits(b)
    ensures ParseInt(a + "_" + b) == ParseInt(a + b) == Some(DigitsValue(a + b) as int)
  {
    JoinGrouped(a, b);
    JoinUngrouped(a, b);
    ParseIntGrouped(a + "_" + b);
    var t := a + b;
    assert AllDigits(t) by {
      forall i | 0 <= i < |t| ensures IsDigit(t[i]) {
        if i < |a| {
          assert t[i] == a[i];
        } else {
          assert t[i] == b[i - |a|];
        }
      }
    }
    assert t[0] == a[0] && t[|t| - 1] == b[|b| - 1];
    ParseIntGrouped(t);
    UngroupedDigits(t);
  }

  function DigitChar(d: nat): (c: char)
    requires d < 10
    ensures IsDigit(c) && (c - '0') as nat == d
  {
    ('0' as int + d) as char
  }

  /** Python's `str(n)` for a natural number. */
  function NatToString(n: nat): (s: string)
    ensures s != [] && AllDigits(s) && DigitsValue(s) == n
  {
    if n < 10 then [DigitChar(n)]
    else
      var s := NatToString(n / 10) + [DigitChar(n % 10)];
      assert s[..|s| - 1] == NatToString(n / 10);
      s
  }

  /** Python's `str(i)` for an integer. */
  function IntToString(i: int): (s: string)
    ensures s != [] && !IsSpace(s[0]) && !IsSpace(s[|s| - 1])
  {
    if i < 0 then "-" + NatToString(-i) else NatToString(i)
  }

  lemma IntToStringNoSpace(i: int)
    ensures NoSpace(IntToString(i))
    ensures forall k :: 0 <= k < |IntToString(i)| ==> IntToString(i)[k] == '-' || IsDigit(IntToString(i)[k])
  {
    var s := IntToString(i);
    var d := NatToString(if i < 0 then -i else i);
    assert forall k :: 0 <= k < |d| ==> IsDigit(d[k]);
    assert forall k :: 0 <= k < |s| ==> s[k] == '-' || IsDigit(s[k]);
  }

  /** `int(str(i)) == i`. */
  lemma ParseIntRoundTrip(i: int)
    ensures ParseInt(IntToString(i)) == Some(i)
  {
    IntToStringNoSpace(i);
    StripNoSpace(IntToString(i));
    var d := NatToString(if i < 0 then -i else i);
    DigitsGrouped(d);
    if i < 0 {
      assert IntToString(i)[1..] == d;
    }
  }

  /** sep occurs in s at position i. */
  predicate OccursAt(s: string, sep: string, i: nat)
  {
    i + |sep| <= |s| && s[i..i + |sep|] == sep
  }

  /** `s.find(sep, from)`: the first occurrence at or after `from`. */
  function FindFrom(s: string, sep: string, from: nat): (r: Option<nat>)
    ensures r.Some? ==> (from <= r.value && OccursAt(s, sep, r.value)
                         && forall k :: from <= k < r.value ==> !OccursAt(s, sep, k))
    ensures r.None? ==> forall k :: from <= k ==> !OccursAt(s, sep, k)
    decreases |s| - from
  {
    if from + |sep| > |s| then None
    else if s[from..from + |sep|] == sep then Some(from)
    else FindFrom(s, sep, from + 1)
  }

  /** The first occurrence at or after `from` is at `c`. */
  lemma FindFromIs(s: string, sep: string, from: nat, c: nat)
    requires from <= c && OccursAt(s, sep, c)
    requires forall k :: from <= k < c ==> !OccursAt(s, sep, k)
    ensures FindFrom(s, sep, from) == Some(c)
  {
  }

  /** A single character occurs at `i` exactly when `s[i]` is that character. */
  lemma OccursAtChar(s: string, c: char, i: nat)
    ensures OccursAt(s, [c], i) <==> i < |s| && s[i] == c
  {
    if i < |s| {
      assert s[i..i + 1] == [s[i]];
    }
  }

  /** `s.split(sep)` for a non-empty separator. */
  function Split(s: string, sep: string): (parts: seq<string>)
    requires sep != []
    ensures |parts| >= 1
    decreases |s|
  {
    match FindFrom(s, sep, 0)
    case None => [s]
    case Some(i) => [s[..i]] + Split(s[i + |sep|..], sep)
  }

  /** `sep.join(parts)`. */
  function Join(parts: seq<string>, sep: string): string
  {
    if parts == [] then []
    else if |parts| == 1 then parts[0]
    else parts[0] + sep + Join(parts[1..], sep)
  }

  /** Splitting and re-joining gives back the original text. */
  lemma {:induction false} JoinSplit(s: string, sep: string)
    requires sep != []
    ensures Join(Split(s, sep), sep) == s
    decreases |s|
  {
    var f := FindFrom(s, sep, 0);
    if f.Some? {
      var i := f.value;
      var rest := s[i + |sep|..];
      var tail := Split(rest, sep);
      assert Split(s, sep) == [s[..i]] + tail;
      JoinSplit(rest, sep);
      assert ([s[..i]] + tail)[1..] == tail;
      assert Join([s[..i]] + tail, sep) == s[..i] + sep + Join(tail, sep);
      assert s == s[..i] + sep + rest;
    }
  }

  /** Every character of a join comes from one of the parts or from the separator. */
  lemma {:induction false} JoinChars(parts: seq<string>, sep: string, k: nat)
    requires k < |Join(parts, sep)|
    ensures Join(parts, sep)[k] in sep || exists p :: p in parts && Join(parts, sep)[k] in p
  {
    if |parts| > 1 {
      var rest := Join(parts[1..], sep);
      assert Join(parts, sep) == parts[0] + sep + rest;
      if k < |parts[0]| {
        assert Join(parts, sep)[k] == parts[0][k];
        assert parts[0] in parts;
      } else if k < |parts[0]| + |sep| {
        assert Join(parts, sep)[k] == sep[k - |parts[0]|];
      } else {
        var k' := k - |parts[0]| - |sep|;
        assert Join(parts, sep)[k] == rest[k'];
        JoinChars(parts[1..], sep, k');
        if Join(parts, sep)[k] !in sep {
          var p :| p in parts[1..] && rest[k'] in p;
          assert p in parts;
        }
      }
    } else if |parts| == 1 {
      assert parts[0] in parts;
    }
  }

  /** Splitting the join of comma-free parts on a single character gives the parts back. */
  lemma {:induction false} SplitJoin(parts: seq<string>, c: char)
    requires parts != []
    requires forall p, k :: p in parts && 0 <= k < |p| ==> p[k] != c
    ensures Split(Join(parts, [c]), [c]) == parts
  {
    var s := Join(parts, [c]);
    if |parts| == 1 {
      assert forall k :: 0 <= k < |s| ==> !OccursAt(s, [c], k) by {
        forall k | 0 <= k < |s| ensures !OccursAt(s, [c], k) {
          assert s[k] != c;
        }
      }
    } else {
      var p := parts[0];
      assert s == p + [c] + Join(parts[1..], [c]);
      assert forall k :: 0 <= k < |p| ==> !OccursAt(s, [c], k) by {
        forall k | 0 <= k < |p| ensures !OccursAt(s, [c], k) {
          assert s[k] == p[k];
        }
      }
      assert OccursAt(s, [c], |p|);
      assert FindFrom(s, [c], 0) == Some(|p|);
      assert s[|p| + 1..] == Join(parts[1..], [c]);
      assert s[..|p|] == p;
      assert Split(s, [c]) == [p] + Split(Join(parts[1..], [c]), [c]);
      SplitJoin(parts[1..], c);
      assert parts == [p] + parts[1..];
    }
  }

  /** Length of the leading run of non-whitespace characters. */
  function WordLength(s: string): (k: nat)
    ensures k <= |s| && (k == |s| || IsSpace(s[k]))
    ensures forall i :: 0 <= i < k ==> !IsSpace(s[i])
  {
    if s == [] || IsSpace(s[0]) then 0 else 1 + WordLength(s[1..])
  }

  /** `s.split()` with no argument: the maximal runs of non-whitespace. */
  function Words(s: string): (ws: seq<string>)
    ensures forall w :: w in ws ==> w != [] && NoSpace(w)
    decreases |s|
  {
    var t := LStrip(s);
    if t == [] then []
    else
      var k := WordLength(t);
      [t[..k]] + Words(t[k..])
  }

  /** `text in s` for a single character. */
  predicate Contains(s: string, c: char)
  {
    exists i :: 0 <= i < |s| && s[i] == c
  }
}
