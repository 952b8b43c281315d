/** The types that a signature declares, read out of its text. */
module AbiSignature {
  import opened AbiStatic
  import opened Bytes
  import opened Decimal

  // ---------------------------------------------------------------- one type

  /** Decimal digits up to 256. */
  function NumberIn(s: string): (r: Option<nat>)
    ensures r.Some? ==> r.value <= 256
  {
    if AllDigits(s) && Spelled(s) <= 256 then Some(Spelled(s)) else None
  }

  predicate Begins(s: string, with: string) { |s| > |with| && s[..|with|] == with }

  /** A type of one word, by its name; dynamic types have no such name. */
  function ParseType(s: string): (r: Option<ArgType>)
    ensures r.Some? ==> r.value.Legal()
  {
    if s == "address" then Some(Address)
    else if s == "bool" then Some(Bool)
    else if Begins(s, "uint") then
      var n :- NumberIn(s[4..]);
      if n >= 8 && n % 8 == 0 then Some(Uint(n / 8)) else None
    else if Begins(s, "int") then
      var n :- NumberIn(s[3..]);
      if n >= 8 && n % 8 == 0 then Some(Int(n / 8)) else None
    else if Begins(s, "bytes") then
      var n :- NumberIn(s[5..]);
      if 1 <= n <= 32 then Some(BytesN(n)) else None
    else None
  }

  /** A type's name. */
  function NameOf(t: ArgType): string {
    match t
    case Address => "address"
    case Bool => "bool"
    case Uint(k) => "uint" + Digits(8 * k)
    case Int(k) => "int" + Digits(8 * k)
    case BytesN(k) => "bytes" + Digits(k)
  }

  lemma NameIsParsed(t: ArgType)
    requires t.Legal()
    ensures ParseType(NameOf(t)) == Some(t)
  {
    hide Digits, Spelled;
    match t
    case Address =>
    case Bool =>
    case Uint(k) =>
      DigitsSpell(8 * k);
      assert NameOf(t)[..4] == "uint" && NameOf(t)[4..] == Digits(8 * k) && NameOf(t)[0] == 'u';
    case Int(k) =>
      DigitsSpell(8 * k);
      assert NameOf(t)[..3] == "int" && NameOf(t)[3..] == Digits(8 * k) && NameOf(t)[0] == 'i';
    case BytesN(k) =>
      DigitsSpell(k);
      assert NameOf(t)[..5] == "bytes" && NameOf(t)[5..] == Digits(k) && NameOf(t)[0] == 'b' && NameOf(t)[1] == 'y';
  }

  lemma {:induction false} SpelledGrows(s: string, i: nat)
    requires AllDigits(s) && i <= |s|
    ensures AllDigits(s[..i]) && Spelled(s[..i]) <= Spelled(s)
    decreases |s|
  {
    if i < |s| {
      SpelledGrows(s[..|s| - 1], i);
      assert s[..|s| - 1][..i] == s[..i];
    } else {
      assert s[..i] == s;
    }
  }

  method ReadNumber(s: string) returns (r: Option<nat>)
    ensures r == NumberIn(s)
  {
    var bits := 0;
    var i := 0;
    while i < |s|
      invariant 0 <= i <= |s| && AllDigits(s[..i]) && bits == Spelled(s[..i]) && bits <= 256
    {
      if !IsDigit(s[i]) { return None; }
      var next := s[..i + 1];
      assert next[..i] == s[..i];
      bits := 10 * bits + DigitOf(s[i]);
      if bits > 256 {
        if AllDigits(s) { SpelledGrows(s, i + 1); }
        return None;
      }
      i := i + 1;
    }
    assert s[..i] == s;
    r := Some(bits);
  }

  method ParseArgType(s: string) returns (r: Option<ArgType>)
    ensures r == ParseType(s)
  {
    hide NumberIn;
    if s == "address" { return Some(Address); }
    if s == "bool" { return Some(Bool); }
    if Begins(s, "uint") {
      var n :- ReadNumber(s[4..]);
      return if n >= 8 && n % 8 == 0 then Some(Uint(n / 8)) else None;
    }
    if Begins(s, "int") {
      var n :- ReadNumber(s[3..]);
      return if n >= 8 && n % 8 == 0 then Some(Int(n / 8)) else None;
    }
    if Begins(s, "bytes") {
      var n :- ReadNumber(s[5..]);
      return if 1 <= n <= 32 then Some(BytesN(n)) else None;
    }
    r := None;
  }

  // ------------------------------------------------------------ all the types

  predicate IsStop(c: char) { c == ',' || c == ')' }

  /** No punctuation: the name of a type. */
  predicate Clean(s: string) { forall i | 0 <= i < |s| :: !IsStop(s[i]) }

  /** Where the first comma or closing parenthesis is, or the end. */
  function StopIn(s: string): (n: nat)
    ensures n <= |s| && Clean(s[..n]) && (n < |s| ==> IsStop(s[n]))
  {
    if |s| == 0 || IsStop(s[0]) then 0
    else
      var n := 1 + StopIn(s[1..]);
      assert s[..n] == [s[0]] + s[1..][..n - 1];
      n
  }

  /** The types from here to the closing parenthesis that ends the text. */
  function ParseArgs(s: string, count: nat): (r: Option<seq<ArgType>>)
    ensures r.Some? ==> 0 < |r.value| && AllLegal(r.value) && count + |r.value| <= MAX_ARGS
    decreases |s|
  {
    var n := StopIn(s);
    if n == |s| || count >= MAX_ARGS then None
    else
      var t :- ParseType(s[..n]);
      if s[n] == ')' then if n + 1 == |s| then Some([t]) else None
      else
        var rest :- ParseArgs(s[n + 1..], count + 1);
        Some([t] + rest)
  }

  function OpenIn(s: string): (n: nat)
    ensures n <= |s| && '(' !in s[..n] && (n < |s| ==> s[n] == '(')
  {
    if |s| == 0 || s[0] == '(' then 0
    else
      var n := 1 + OpenIn(s[1..]);
      assert s[..n] == [s[0]] + s[1..][..n - 1];
      n
  }

  function ParseSignature(sig: string): (r: Option<seq<ArgType>>)
    ensures r.Some? ==> AllLegal(r.value) && |r.value| <= MAX_ARGS
  {
    var p := OpenIn(sig);
    if p == |sig| then None
    else
      var s := sig[p + 1..];
      if |s| > 0 && s[0] == ')' then if |s| == 1 then Some([]) else None else ParseArgs(s, 0)
  }

  /** Types read before those a result holds. */
  function After(first: seq<ArgType>, rest: Option<seq<ArgType>>): Option<seq<ArgType>> {
    if rest.None? then None else Some(first + rest.value)
  }

  lemma AfterNone(rest: Option<seq<ArgType>>)
    ensures After([], rest) == rest
  {
    if rest.Some? { assert [] + rest.value == rest.value; }
  }

  lemma AfterOne(first: seq<ArgType>, t: ArgType, rest: Option<seq<ArgType>>)
    ensures After(first, After([t], rest)) == After(first + [t], rest)
    ensures After(first, None) == None && After(first, Some([t])) == Some(first + [t])
  {
    if rest.Some? { assert first + ([t] + rest.value) == first + [t] + rest.value; }
  }

  /** One type at a place in the text. */
  lemma ArgsAt(s: string, p: nat, q: nat, count: nat)
    requires p <= |s| && q == p + StopIn(s[p..])
    ensures ParseArgs(s[p..], count) ==
            if q == |s| || count >= MAX_ARGS || ParseType(s[p..q]).None? then None
            else if s[q] == ',' then After([ParseType(s[p..q]).value], ParseArgs(s[q + 1..], count + 1))
            else if q + 1 == |s| then Some([ParseType(s[p..q]).value]) else None
  {
    hide ParseType;
    var rest := s[p..];
    assert rest[..q - p] == s[p..q];
    if q < |s| { assert rest[q - p + 1..] == s[q + 1..] && rest[q - p] == s[q]; }
  }

  method ParseTypes(s: string, start: nat) returns (r: Option<seq<ArgType>>)
    requires start <= |s|
    ensures r == ParseArgs(s[start..], 0)
  {
    hide ParseType, ParseArgs, StopIn, After;
    var p := start;
    var types: seq<ArgType> := [];
    AfterNone(ParseArgs(s[start..], 0));
    while true
      invariant p <= |s|
      invariant ParseArgs(s[start..], 0) == After(types, ParseArgs(s[p..], |types|))
      decreases |s| - p
    {
      var q := FindStop(s, p);
      ArgsAt(s, p, q, |types|);
      AfterOne(types, Address, None);
      if q == |s| || |types| >= MAX_ARGS { return None; }
      var t :- ParseArgType(s[p..q]);
      AfterOne(types, t, ParseArgs(s[q + 1..], |types| + 1));
      types := types + [t];
      if s[q] == ')' { return if q + 1 == |s| then Some(types) else None; }
      p := q + 1;
    }
  }

  method ParseSignatureArgs(sig: string) returns (r: Option<seq<ArgType>>)
    ensures r == ParseSignature(sig)
  {
    hide ParseArgs, OpenIn;
    var p := FindOpen(sig);
    if p == |sig| { return None; }
    p := p + 1;
    if p < |sig| && sig[p] == ')' { return if p + 1 == |sig| then Some([]) else None; }
    r := ParseTypes(sig, p);
  }

  method FindOpen(s: string) returns (n: nat)
    ensures n == OpenIn(s)
  {
    n := 0;
    assert s[0..] == s;
    while n < |s| && s[n] != '('
      invariant n <= |s| && OpenIn(s) == n + OpenIn(s[n..])
    {
      assert s[n..][1..] == s[n + 1..];
      n := n + 1;
    }
  }

  method FindStop(s: string, p: nat) returns (n: nat)
    requires p <= |s|
    ensures p <= n <= |s| && n == p + StopIn(s[p..])
  {
    n := p;
    while n < |s| && !IsStop(s[n])
      invariant p <= n <= |s| && p + StopIn(s[p..]) == n + StopIn(s[n..])
    {
      assert s[n..][1..] == s[n + 1..];
      n := n + 1;
    }
  }

  // ----------------------------------------------- what is read and what is not

  /** Names with commas between them, and the closing parenthesis. */
  function Listed(names: seq<string>): string
    requires |names| > 0
  {
    if |names| == 1 then names[0] + ")" else names[0] + "," + Listed(names[1..])
  }

  predicate Mean(names: seq<string>, types: seq<ArgType>) {
    |names| == |types| && forall i | 0 <= i < |names| :: ParseType(names[i]) == Some(types[i])
  }

  lemma DigitsAreClean(prefix: string, s: string)
    requires Begins(s, prefix) && Clean(prefix) && AllDigits(s[|prefix|..])
    ensures Clean(s)
  {
    forall i | 0 <= i < |s| ensures !IsStop(s[i]) {
      if i < |prefix| { assert s[..|prefix|][i] == s[i]; } else { assert s[|prefix|..][i - |prefix|] == s[i]; }
    }
  }

  lemma NamesAreClean(s: string)
    requires ParseType(s).Some?
    ensures Clean(s)
  {
    hide Spelled;
    if s == "address" || s == "bool" {
    } else if Begins(s, "uint") {
      DigitsAreClean("uint", s);
    } else if Begins(s, "int") {
      DigitsAreClean("int", s);
    } else {
      DigitsAreClean("bytes", s);
    }
  }

  lemma {:induction false} StopAfterClean(name: string, c: char, rest: string)
    requires Clean(name) && IsStop(c)
    ensures StopIn(name + [c] + rest) == |name|
  {
    var s := name + [c] + rest;
    if |name| > 0 {
      assert s[0] == name[0] && s[1..] == name[1..] + [c] + rest;
      StopAfterClean(name[1..], c, rest);
    }
  }

  /** Names of types are read as those types. */
  lemma {:induction false} ListedIsParsed(names: seq<string>, types: seq<ArgType>, count: nat)
    requires |names| > 0 && Mean(names, types) && count + |names| <= MAX_ARGS
    ensures ParseArgs(Listed(names), count) == Some(types)
    decreases |names|
  {
    hide ParseType, StopIn;
    var s := Listed(names);
    NamesAreClean(names[0]);
    if |names| == 1 {
      StopAfterClean(names[0], ')', "");
      assert names[0] + [')'] + "" == s && s[..|names[0]|] == names[0] && types == [types[0]];
    } else {
      var rest := Listed(names[1..]);
      StopAfterClean(names[0], ',', rest);
      assert names[0] + [','] + rest == s && s[..|names[0]|] == names[0] && s[|names[0]| + 1..] == rest;
      ListedIsParsed(names[1..], types[1..], count + 1);
      assert types == [types[0]] + types[1..];
    }
  }

  /** Whatever is read as types is a list of their names. */
  lemma {:induction false} ParsedIsListed(s: string, count: nat) returns (names: seq<string>)
    requires ParseArgs(s, count).Some?
    ensures |names| > 0 && s == Listed(names) && Mean(names, ParseArgs(s, count).value)
    decreases |s|
  {
    hide ParseType, StopIn;
    var n := StopIn(s);
    if s[n] == ')' {
      names := [s[..n]];
      assert s == s[..n] + ")";
    } else {
      var rest := ParsedIsListed(s[n + 1..], count + 1);
      names := [s[..n]] + rest;
      assert names[1..] == rest;
      assert s == s[..n] + "," + s[n + 1..];
    }
  }

  /** A signature: a name, and in parentheses the names of its types. */
  function Signature(name: string, names: seq<string>): string {
    name + "(" + if |names| == 0 then ")" else Listed(names)
  }

  lemma {:induction false} OpenAfterName(name: string, rest: string)
    requires '(' !in name
    ensures OpenIn(name + "(" + rest) == |name|
  {
    var s := name + "(" + rest;
    if |name| > 0 {
      assert s[0] == name[0] && s[1..] == name[1..] + "(" + rest;
      OpenAfterName(name[1..], rest);
    }
  }

  lemma {:induction false} ListedBegins(names: seq<string>, types: seq<ArgType>)
    requires |names| > 0 && Mean(names, types)
    ensures |Listed(names)| > 0 && Listed(names)[0] != ')'
  {
    assert ParseType("").None?;
    NamesAreClean(names[0]);
    assert names[0] != "" && Listed(names)[0] == names[0][0];
  }

  /** A signature of at most six types of one word is read as those types. */
  lemma SignatureIsParsed(name: string, names: seq<string>, types: seq<ArgType>)
    requires '(' !in name && Mean(names, types) && |names| <= 6
    ensures ParseSignature(Signature(name, names)) == Some(types)
  {
    hide ParseType, ParseArgs, OpenIn, Listed;
    var rest := if |names| == 0 then ")" else Listed(names);
    OpenAfterName(name, rest);
    assert Signature(name, names)[|name| + 1..] == rest;
    if |names| > 0 {
      ListedBegins(names, types);
      ListedIsParsed(names, types, 0);
    }
  }

  /** And nothing else is read: no dynamic type, no seventh argument, nothing behind the end. */
  lemma ParsedIsASignature(sig: string) returns (name: string, names: seq<string>)
    requires ParseSignature(sig).Some?
    ensures '(' !in name && |names| <= 6 && Mean(names, ParseSignature(sig).value) && sig == Signature(name, names)
  {
    hide ParseType, ParseArgs, OpenIn, Listed;
    var p := OpenIn(sig);
    name := sig[..p];
    var s := sig[p + 1..];
    if |s| > 0 && s[0] == ')' {
      names := [];
    } else {
      names := ParsedIsListed(s, 0);
    }
    assert sig == name + "(" + s;
  }
}
