/** http.Header as handlers change it and as net/http prints it (the header and trailer of pkg/adaptor/adaptor.go).

    The map is a list of fields under canonical names, so the values of a name keep their order.  Printing drops fields
    whose name is not a token and makes every value one line. */
module HeaderMap {
  import opened Bytes
  import opened HeaderPrint

  datatype Field = Field(name: seq<byte>, value: seq<byte>)

  const COLON: seq<byte> := [58, 32] // ": "
  const DASH: byte := 45

  // ----- names

  /** The bytes of a token, section 5.6.2 of RFC 9110. */
  predicate IsTokenByte(c: byte)
  {
    48 <= c <= 57 || 65 <= c <= 90 || 97 <= c <= 122
    || c == 33 || 35 <= c <= 39 || c == 42 || c == 43 || c == 45 || c == 46 || 94 <= c <= 96 || c == 124 || c == 126
  }

  predicate IsToken(name: seq<byte>)
  {
    name != [] && forall i :: 0 <= i < |name| ==> IsTokenByte(name[i])
  }

  function Upper(c: byte): byte
  {
    if 97 <= c <= 122 then c - 32 else c
  }

  /** The first letter and every letter after a dash upper case, the rest lower. */
  function Capitalised(name: seq<byte>, first: bool): (r: seq<byte>)
    ensures |r| == |name|
  {
    if name == [] then []
    else [if first then Upper(name[0]) else Lower(name[0])] + Capitalised(name[1..], name[0] == DASH)
  }

  /** http.CanonicalHeaderKey: other names than tokens stay as they are. */
  function Canonical(name: seq<byte>): seq<byte>
  {
    if IsToken(name) then Capitalised(name, true) else name
  }

  lemma {:induction false} CapitalisedIff(a: seq<byte>, b: seq<byte>, first: bool)
    ensures Capitalised(a, first) == Capitalised(b, first) <==> EqualFold(a, b)
    decreases |a|
  {
    if |a| == |b| && a != [] {
      var x, y := Capitalised(a, first), Capitalised(b, first);
      if Lower(a[0]) == Lower(b[0]) {
        CapitalisedIff(a[1..], b[1..], a[0] == DASH);
        assert x == [x[0]] + x[1..] && y == [y[0]] + y[1..];
        assert EqualFold(a, b) <==> EqualFold(a[1..], b[1..]) by {
          assert forall i :: 1 <= i < |a| ==> a[i] == a[1..][i - 1] && b[i] == b[1..][i - 1];
        }
      } else {
        assert x[0] != y[0];
      }
    }
  }

  /** Two tokens name the same field exactly when they differ in case only. */
  lemma SameNameIff(a: seq<byte>, b: seq<byte>)
    requires IsToken(a) && IsToken(b)
    ensures Canonical(a) == Canonical(b) <==> EqualFold(a, b)
  {
    CapitalisedIff(a, b, true);
  }

  lemma {:induction false} CapitalisedAt(name: seq<byte>, first: bool)
    ensures forall i :: 0 <= i < |name| ==> Lower(Capitalised(name, first)[i]) == Lower(name[i])
    ensures (forall i :: 0 <= i < |name| ==> IsTokenByte(name[i])) ==>
              forall i :: 0 <= i < |name| ==> IsTokenByte(Capitalised(name, first)[i])
    decreases |name|
  {
    if name != [] {
      CapitalisedAt(name[1..], name[0] == DASH);
      var r := Capitalised(name, first);
      assert forall i :: 1 <= i < |name| ==> r[i] == Capitalised(name[1..], name[0] == DASH)[i - 1];
      assert forall i :: 1 <= i < |name| ==> name[i] == name[1..][i - 1];
    }
  }

  /** A canonical name is its own. */
  lemma CanonicalTwice(name: seq<byte>)
    ensures Canonical(Canonical(name)) == Canonical(name)
    ensures IsToken(Canonical(name)) <==> IsToken(name)
  {
    if IsToken(name) {
      CapitalisedAt(name, true);
      CapitalisedIff(Capitalised(name, true), name, true);
    }
  }

  /** The token bytes, spelled out. */
  lemma TokenBytes(c: byte)
    ensures IsTokenByte(c) <==>
            || '0' as int <= c <= '9' as int || 'a' as int <= c <= 'z' as int || 'A' as int <= c <= 'Z' as int
            || c in Ascii("!#$%&'*+-.^_`|~")
  {
    var others := Ascii("!#$%&'*+-.^_`|~");
    assert others == [33, 35, 36, 37, 38, 39, 42, 43, 45, 46, 94, 95, 96, 124, 126];
  }

  lemma {:induction false} CapitalAt(name: seq<byte>, first: bool, i: nat)
    requires i < |name|
    ensures Capitalised(name, first)[i] ==
            if (if i == 0 then first else name[i - 1] == DASH) then Upper(name[i]) else Lower(name[i])
    decreases |name|
  {
    if i > 0 {
      CapitalAt(name[1..], name[0] == DASH, i - 1);
    }
  }

  /** In a canonical token the first letter and every letter after a dash are upper case, all others lower. */
  lemma CanonicalLetters(name: seq<byte>, i: nat)
    requires IsToken(name) && i < |name|
    ensures |Canonical(name)| == |name|
    ensures var c := name[i];
            Canonical(name)[i] ==
            if i == 0 || name[i - 1] == '-' as int then (if 'a' as int <= c <= 'z' as int then c - 32 else c)
            else (if 'A' as int <= c <= 'Z' as int then c + 32 else c)
  {
    CapitalAt(name, true, i);
  }

  /** Other names stay as they are. */
  lemma NoToken(name: seq<byte>)
    requires !IsToken(name)
    ensures Canonical(name) == name
  {
  }

  // ----- values

  /** Fields whose key is exactly this. */
  function ValuesAt(fields: seq<Field>, key: seq<byte>): seq<seq<byte>>
  {
    if fields == [] then []
    else if fields[0].name == key then [fields[0].value] + ValuesAt(fields[1..], key)
    else ValuesAt(fields[1..], key)
  }

  function Without(fields: seq<Field>, key: seq<byte>): seq<Field>
  {
    if fields == [] then []
    else if fields[0].name == key then Without(fields[1..], key)
    else [fields[0]] + Without(fields[1..], key)
  }

  function Replaced(fields: seq<Field>, key: seq<byte>, value: seq<byte>): seq<Field>
  {
    if fields == [] then [Field(key, value)]
    else if fields[0].name == key then [Field(key, value)] + Without(fields[1..], key)
    else [fields[0]] + Replaced(fields[1..], key, value)
  }

  /** http.Header.Values. */
  function Values(fields: seq<Field>, name: seq<byte>): seq<seq<byte>>
  {
    ValuesAt(fields, Canonical(name))
  }

  /** http.Header.Get: the first value, or none. */
  function Get(fields: seq<Field>, name: seq<byte>): seq<byte>
  {
    var values := Values(fields, name);
    if values == [] then [] else values[0]
  }

  /** http.Header.Del. */
  function Del(fields: seq<Field>, name: seq<byte>): seq<Field>
  {
    Without(fields, Canonical(name))
  }

  /** http.Header.Set. */
  function Set(fields: seq<Field>, name: seq<byte>, value: seq<byte>): (r: seq<Field>)
    ensures r != []
  {
    Replaced(fields, Canonical(name), value)
  }

  /** http.Header.Add. */
  function Add(fields: seq<Field>, name: seq<byte>, value: seq<byte>): seq<Field>
  {
    fields + [Field(Canonical(name), value)]
  }

  lemma {:induction false} KeyLaws(fields: seq<Field>, key: seq<byte>, value: seq<byte>, other: seq<byte>)
    ensures ValuesAt(Without(fields, key), key) == [] && ValuesAt(Replaced(fields, key, value), key) == [value]
    ensures ValuesAt(fields + [Field(key, value)], key) == ValuesAt(fields, key) + [value]
    ensures other != key ==>
              && ValuesAt(Without(fields, key), other) == ValuesAt(fields, other)
              && ValuesAt(Replaced(fields, key, value), other) == ValuesAt(fields, other)
              && ValuesAt(fields + [Field(key, value)], other) == ValuesAt(fields, other)
    decreases |fields|
  {
    if fields != [] {
      KeyLaws(fields[1..], key, value, other);
      assert (fields + [Field(key, value)])[1..] == fields[1..] + [Field(key, value)];
    }
  }

  /** What net/http promises: after Set there is that one value, after Del none, after Add one more - for the name in
      any case - and other names keep theirs. */
  lemma HeaderLaws(fields: seq<Field>, name: seq<byte>, value: seq<byte>, other: seq<byte>)
    requires IsToken(name) && IsToken(other)
    ensures EqualFold(name, other) ==>
              && Values(Set(fields, name, value), other) == [value] && Get(Set(fields, name, value), other) == value
              && Values(Del(fields, name), other) == []
              && Values(Add(fields, name, value), other) == Values(fields, other) + [value]
    ensures !EqualFold(name, other) ==>
              && Values(Set(fields, name, value), other) == Values(fields, other)
              && Values(Del(fields, name), other) == Values(fields, other)
              && Values(Add(fields, name, value), other) == Values(fields, other)
  {
    SameNameIff(name, other);
    KeyLaws(fields, Canonical(name), value, Canonical(other));
  }

  // ----- printing

  predicate IsBlank(c: byte)
  {
    c == 9 || c == 32
  }

  /** Line ends become spaces. */
  function OneLine(value: seq<byte>): (r: seq<byte>)
    ensures |r| == |value|
    ensures forall i :: 0 <= i < |r| ==> r[i] == if value[i] == CR || value[i] == LF then 32 else value[i]
  {
    seq(|value|, i requires 0 <= i < |value| => if value[i] == CR || value[i] == LF then 32 else value[i])
  }

  /** Exactly the carriage returns and line feeds become spaces. */
  lemma OneLineBytes(value: seq<byte>, i: nat)
    requires i < |value|
    ensures |OneLine(value)| == |value|
    ensures OneLine(value)[i] ==
            if value[i] == '\r' as int || value[i] == '\n' as int then ' ' as int else value[i]
  {
  }

  function WithoutBlanks(s: seq<byte>): (r: seq<byte>)
    ensures |r| <= |s| && forall c :: c in r ==> c in s
    ensures r != [] ==> !IsBlank(r[0]) && !IsBlank(r[|r| - 1])
    decreases |s|
  {
    if s == [] then []
    else if IsBlank(s[0]) then WithoutBlanks(s[1..])
    else if IsBlank(s[|s| - 1]) then WithoutBlanks(s[..|s| - 1])
    else s
  }

  predicate Blanks(s: seq<byte>)
  {
    forall i :: 0 <= i < |s| ==> s[i] == ' ' as int || s[i] == '\t' as int
  }

  lemma {:induction false} BlanksBefore(left: seq<byte>, s: seq<byte>)
    requires Blanks(left)
    ensures WithoutBlanks(left + s) == WithoutBlanks(s)
    decreases |left|
  {
    if left == [] {
      assert left + s == s;
    } else {
      assert (left + s)[1..] == left[1..] + s;
      BlanksBefore(left[1..], s);
    }
  }

  lemma {:induction false} BlanksAfter(s: seq<byte>, right: seq<byte>)
    requires Blanks(right) && (s != [] ==> !IsBlank(s[0]) && !IsBlank(s[|s| - 1]))
    ensures WithoutBlanks(s + right) == s
    decreases |right|
  {
    if right == [] {
      assert s + right == s;
    } else if s == [] {
      assert s + right == right + [];
      BlanksBefore(right, []);
    } else {
      assert (s + right)[..|s + right| - 1] == s + right[..|right| - 1];
      BlanksAfter(s, right[..|right| - 1]);
    }
  }

  /** Exactly the spaces and tabs around a value are left out. */
  lemma BlanksAround(left: seq<byte>, s: seq<byte>, right: seq<byte>)
    requires Blanks(left) && Blanks(right) && (s != [] ==> !IsBlank(s[0]) && !IsBlank(s[|s| - 1]))
    ensures WithoutBlanks(left + s + right) == s
  {
    assert left + s + right == left + (s + right);
    BlanksBefore(left, s + right);
    BlanksAfter(s, right);
  }

  function LineOf(name: seq<byte>, value: seq<byte>): seq<byte>
  {
    name + COLON + value
  }

  /** http.Header.Write, line by line. */
  function LinesOf(fields: seq<Field>): seq<seq<byte>>
  {
    if fields == [] then []
    else
      (if IsToken(fields[0].name) then [LineOf(fields[0].name, WithoutBlanks(OneLine(fields[0].value)))] else [])
      + LinesOf(fields[1..])
  }

  lemma PrintedLine(name: seq<byte>, value: seq<byte>)
    requires IsToken(name)
    ensures CleanLine(LineOf(name, WithoutBlanks(OneLine(value))))
  {
    var v := WithoutBlanks(OneLine(value));
    forall c | c in v
      ensures c != CR
    {
      assert c in OneLine(value);
    }
    WithoutCr(LineOf(name, v));
  }

  /** Whatever a handler puts into the map, what is printed are lines. */
  lemma {:induction false} PrintedIsClean(fields: seq<Field>)
    ensures AllClean(LinesOf(fields))
    decreases |fields|
  {
    hide CleanLine, LineOf, WithoutBlanks, OneLine;
    if fields != [] {
      PrintedIsClean(fields[1..]);
      var lines, rest := LinesOf(fields), LinesOf(fields[1..]);
      if IsToken(fields[0].name) {
        PrintedLine(fields[0].name, fields[0].value);
        assert forall i :: 1 <= i < |lines| ==> lines[i] == rest[i - 1];
      } else {
        assert lines == rest;
      }
    }
  }

  /** A value under a token is printed. */
  lemma {:induction false} ValueIsPrinted(fields: seq<Field>, key: seq<byte>)
    requires IsToken(key) && ValuesAt(fields, key) != []
    ensures LinesOf(fields) != []
    decreases |fields|
  {
    if fields[0].name != key {
      ValueIsPrinted(fields[1..], key);
    }
  }

  // ----- reading back what was printed

  /** The text after the colon of the lines with this name, as a reader of the lines takes it. */
  function LineValues(lines: seq<seq<byte>>, name: seq<byte>): seq<seq<byte>>
  {
    if lines == [] then []
    else
      var n := |Before(lines[0], ':' as int)|;
      (if n < |lines[0]| && EqualFold(lines[0][..n], name) then [WithoutBlanks(lines[0][n + 1..])] else [])
      + LineValues(lines[1..], name)
  }

  /** A value on one line, without blanks around it. */
  function Printed(values: seq<seq<byte>>): seq<seq<byte>>
  {
    if values == [] then [] else [WithoutBlanks(OneLine(values[0]))] + Printed(values[1..])
  }

  lemma {:induction false} BeforeColon(name: seq<byte>, rest: seq<byte>)
    requires forall i :: 0 <= i < |name| ==> IsTokenByte(name[i])
    ensures Before(name + [58] + rest, 58) == name
    decreases |name|
  {
    var s := name + [58] + rest;
    if name != [] {
      assert s[1..] == name[1..] + [58] + rest;
      BeforeColon(name[1..], rest);
      assert IsTokenByte(name[0]) && s[0] == name[0];
    }
  }

  lemma ReadLine(name: seq<byte>, value: seq<byte>)
    requires IsToken(name)
    ensures Before(LineOf(name, value), 58) == name && |name| < |LineOf(name, value)|
    ensures LineOf(name, value)[|name| + 1..] == [32] + value
  {
    BeforeColon(name, [32] + value);
    assert LineOf(name, value) == name + [58] + ([32] + value);
  }

  lemma OneBlankMore(value: seq<byte>)
    ensures WithoutBlanks([32] + WithoutBlanks(value)) == WithoutBlanks(value)
  {
    BlanksAround([32], WithoutBlanks(value), []);
    assert [32] + WithoutBlanks(value) + [] == [32] + WithoutBlanks(value);
  }

  /** The printed lines say what is in the map: for every name, in any case, its values in order, each on one line and
      without blanks around it. */
  lemma {:induction false} PrintedReadsBack(fields: seq<Field>, name: seq<byte>)
    requires IsToken(name) && forall i :: 0 <= i < |fields| ==> Canonical(fields[i].name) == fields[i].name
    ensures LineValues(LinesOf(fields), name) == Printed(Values(fields, name))
    decreases |fields|
  {
    hide WithoutBlanks, OneLine, LineOf, Before, Canonical;
    if fields != [] {
      var f := fields[0];
      assert forall i :: 0 <= i < |fields| - 1 ==> fields[1..][i] == fields[i + 1];
      PrintedReadsBack(fields[1..], name);
      CanonicalTwice(name);
      if IsToken(f.name) {
        var value := WithoutBlanks(OneLine(f.value));
        ReadLine(f.name, value);
        SameNameIff(f.name, name);
        OneBlankMore(OneLine(f.value));
        assert LinesOf(fields) == [LineOf(f.name, value)] + LinesOf(fields[1..]);
        assert LinesOf(fields)[1..] == LinesOf(fields[1..]);
        assert LineOf(f.name, value)[..|f.name|] == f.name;
      } else {
        assert f.name != Canonical(name);
        assert LinesOf(fields) == LinesOf(fields[1..]);
      }
    }
  }
}
