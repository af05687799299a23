/** The symbol-file reader of the debugger (CDebugSymbols::LoadGameSymbols and
    its helpers). A symbol file holds one symbol per line, with the fields
    address (hex), type (a name from the symbol-type table), name, and an
    optional description that runs to the end of the line. The file is split
    with `strtok`: first on ",", then on ",\n" and, for the description, on
    "\n" alone. Parsing stops at the first bad line, whose number is reported;
    the entries accepted before it are kept. */
module Symbols {
  import opened Common
  import opened CLib

  /** ParseError; ERR_SUCCESS is the absence of a failure. */
  datatype ParseError = InvalidAddr | InvalidType | InvalidName | MissingFields

  datatype Failure = Failure(code: ParseError, line: nat)

  /** SYMBOLENTRY. The text fields are the tokens the entry was read from; a
      line without a description leaves it NULL, here `None`. */
  datatype SymbolEntry = SymbolEntry(
    id: nat,
    address: nat,
    addressText: string,
    typeIndex: nat,
    typeText: string,
    name: string,
    description: Option<string>)

  datatype LoadResult = LoadResult(symbols: seq<SymbolEntry>, failure: Option<Failure>)

  const FIRST_DELIMS: set<char> := {','}
  const FIELD_DELIMS: set<char> := {',', '\n'}
  const LINE_DELIMS: set<char> := {'\n'}

  /** The entry after `memset(&curSymbolEntry, 0, ...)`. */
  const CLEARED: SymbolEntry := SymbolEntry(0, 0, [], 0, [], [], None)

  /** GetTypeNumber: the index of the first type named `typeName`, or none (-1). */
  function GetTypeNumber(types: seq<string>, typeName: string): (r: Option<nat>)
    ensures r.None? <==> forall i :: 0 <= i < |types| ==> types[i] != typeName
    ensures r.Some? ==> r.value < |types| && types[r.value] == typeName
                        && forall j :: 0 <= j < r.value ==> types[j] != typeName
  {
    if |types| == 0 then None
    else if types[0] == typeName then Some(0)
    else match GetTypeNumber(types[1..], typeName)
      case None => None
      case Some(i) => Some(i + 1)
  }

  /** What an accepted entry holds: an address read in full by strtoull, a
      known type at its first index, a non-empty name free of separators, and a
      description, if any, that stays on its line. */
  predicate Accepted(e: SymbolEntry, types: seq<string>)
  {
    && ParsesFully(e.addressText) && e.address == StrToULL(e.addressText).value
    && GetTypeNumber(types, e.typeText) == Some(e.typeIndex)
    && |e.name| > 0 && (forall i :: 0 <= i < |e.name| ==> e.name[i] !in FIELD_DELIMS)
    && (e.description.Some? ==>
          |e.description.value| > 0 && forall i :: 0 <= i < |e.description.value| ==> e.description.value[i] != '\n')
  }

  /** The fields of the current line read so far, by phase. */
  predicate FieldsSoFar(cur: SymbolEntry, phase: nat, types: seq<string>)
  {
    && (phase >= 1 ==> ParsesFully(cur.addressText) && cur.address == StrToULL(cur.addressText).value)
    && (phase >= 2 ==> GetTypeNumber(types, cur.typeText) == Some(cur.typeIndex))
    && (phase >= 3 ==> |cur.name| > 0 && forall i :: 0 <= i < |cur.name| ==> cur.name[i] !in FIELD_DELIMS)
    && cur.description.None?
  }

  predicate IdsFromZero(es: seq<SymbolEntry>)
  {
    forall i :: 0 <= i < |es| ==> es[i].id == i
  }

  /** The delimiter set each field phase is read with. */
  predicate PhaseDelims(phase: nat, delims: set<char>)
  {
    && (phase == 0 ==> delims == FIRST_DELIMS || delims == FIELD_DELIMS)
    && (phase == 1 || phase == 2 ==> delims == FIELD_DELIMS)
    && (phase == 3 ==> delims == LINE_DELIMS)
    && phase <= 3
  }

  /** The delimiters of the token after field `phase` on the same line: the
      description runs to the end of the line. */
  function NextDelims(phase: nat): (d: set<char>)
    ensures PhaseDelims(phase + 1, d) || phase + 1 > 3
  {
    if phase + 1 == 3 then LINE_DELIMS else FIELD_DELIMS
  }

  datatype Stored = Stored(entry: SymbolEntry) | Refused(code: ParseError)

  /** The `switch (fieldPhase)`: store the token into its field, or refuse it.
      The address clears the entry first; strtok never returns an empty token,
      so the name check never fires. */
  function StoreField(phase: nat, tok: string, cur: SymbolEntry, types: seq<string>): (r: Stored)
    requires phase <= 3
    ensures r.Refused? <==> (phase == 0 && !ParsesFully(tok)) || (phase == 1 && GetTypeNumber(types, tok).None?)
                            || (phase == 2 && |tok| == 0)
    ensures r.Refused? ==> r.code == (if phase == 1 then InvalidType else InvalidAddr)
    ensures r.Stored? && phase == 0 ==> r.entry == CLEARED.(address := StrToULL(tok).value, addressText := tok)
    ensures r.Stored? && phase == 1 ==> r.entry == cur.(typeIndex := GetTypeNumber(types, tok).value, typeText := tok)
    ensures r.Stored? && phase == 2 ==> r.entry == cur.(name := tok)
    ensures r.Stored? && phase == 3 ==> r.entry == cur.(description := Some(tok))
  {
    if phase == 0 then
      var p := StrToULL(tok);
      if p.consumed != |tok| || |tok| == 0 then Refused(InvalidAddr)
      else Stored(CLEARED.(address := p.value, addressText := tok))
    else if phase == 1 then
      match GetTypeNumber(types, tok)
      case None => Refused(InvalidType)
      case Some(t) => Stored(cur.(typeIndex := t, typeText := tok))
    else if phase == 2 then
      if |tok| == 0 then Refused(InvalidAddr) else Stored(cur.(name := tok))
    else
      Stored(cur.(description := Some(tok)))
  }

  /** The loop's variables between two strtok calls: the unread text, the
      delimiters of the next call, the field the next token fills, the entry
      being built, the entries accepted so far and the current line number. */
  datatype Loop = Loop(rest: string, delims: set<char>, phase: nat, cur: SymbolEntry,
                       acc: seq<SymbolEntry>, line: nat)

  datatype Next = Done(result: LoadResult) | Again(loop: Loop)

  predicate Valid(l: Loop)
  {
    PhaseDelims(l.phase, l.delims)
  }

  /** One pass of the `while (curToken != NULL)` body, with the strtok call that
      fetches its token. A line that ends (newline or end of input) before its
      name is refused; a complete one is stored with the next id. */
  function Iterate(l: Loop, types: seq<string>): (n: Next)
    requires Valid(l)
    ensures n.Again? ==> Valid(n.loop) && |n.loop.rest| < |l.rest|
  {
    match Strtok(l.rest, l.delims)
    case NoToken => Done(LoadResult(l.acc, None))
    case Token(tok, used, next) =>
      match StoreField(l.phase, tok, l.cur, types)
      case Refused(code) => Done(LoadResult(l.acc, Some(Failure(code, l.line))))
      case Stored(filled) =>
        if used == '\n' || used == '\0' then
          if l.phase < 2 then Done(LoadResult(l.acc, Some(Failure(MissingFields, l.line))))
          else Again(Loop(next, FIELD_DELIMS, 0, CLEARED, l.acc + [filled.(id := |l.acc|)], l.line + 1))
        else
          Again(Loop(next, NextDelims(l.phase), l.phase + 1, filled, l.acc, l.line))
  }

  /** The loop run to its end from the state `l`. It is written as three
      mutually recursive functions, ParseFrom, Pass and Advance, so that a
      pass is expanded only where a proof asks for it: ParseFromStep takes
      one step. */
  function ParseFrom(l: Loop, types: seq<string>): LoadResult
    requires Valid(l)
    decreases |l.rest|, 2
  {
    Pass(l, types)
  }

  function Pass(l: Loop, types: seq<string>): LoadResult
    requires Valid(l)
    decreases |l.rest|, 1
  {
    Advance(l, types)
  }

  /** One pass, then the rest of the loop. */
  function Advance(l: Loop, types: seq<string>): LoadResult
    requires Valid(l)
    decreases |l.rest|, 0
  {
    match Iterate(l, types)
    case Done(r) => r
    case Again(l') => ParseFrom(l', types)
  }

  predicate AllAccepted(es: seq<SymbolEntry>, types: seq<string>)
  {
    forall i {:trigger Accepted(es[i], types)} :: 0 <= i < |es| ==> Accepted(es[i], types)
  }

  /** What holds between passes. */
  predicate LoopInvariant(l: Loop, types: seq<string>)
  {
    && Valid(l) && FieldsSoFar(l.cur, l.phase, types)
    && AllAccepted(l.acc, types) && IdsFromZero(l.acc) && l.line == |l.acc| + 1
  }

  /** What the load promises: well-formed entries numbered from zero, and a
      failure on the line after the accepted ones. */
  predicate Outcome(r: LoadResult, types: seq<string>)
  {
    && AllAccepted(r.symbols, types) && IdsFromZero(r.symbols)
    && (r.failure.Some? ==> r.failure.value.line == |r.symbols| + 1)
  }

  lemma StoreFieldExtends(phase: nat, delims: set<char>, tok: string, cur: SymbolEntry, types: seq<string>, id: nat)
    requires PhaseDelims(phase, delims) && FieldsSoFar(cur, phase, types)
    requires |tok| > 0 && forall i :: 0 <= i < |tok| ==> tok[i] !in delims
    requires StoreField(phase, tok, cur, types).Stored?
    ensures var filled := StoreField(phase, tok, cur, types).entry;
            && (phase < 3 ==> FieldsSoFar(filled, phase + 1, types))
            && (phase >= 2 ==> Accepted(filled.(id := id), types))
  {
  }

  /** A pass that stops delivers the outcome, with the entries accepted so far. */
  lemma IterateStops(l: Loop, types: seq<string>)
    requires LoopInvariant(l, types) && Iterate(l, types).Done?
    ensures Outcome(Iterate(l, types).result, types) && Iterate(l, types).result.symbols == l.acc
  {
  }

  /** A stored field that does not end its line moves on to the next field. */
  lemma NextFieldKeepsInvariant(l: Loop, tok: string, used: char, next: string, types: seq<string>)
    requires LoopInvariant(l, types) && Strtok(l.rest, l.delims) == Token(tok, used, next)
    requires StoreField(l.phase, tok, l.cur, types).Stored? && used != '\n' && used != '\0'
    ensures l.phase < 3
    ensures LoopInvariant(Loop(next, NextDelims(l.phase), l.phase + 1,
                               StoreField(l.phase, tok, l.cur, types).entry, l.acc, l.line), types)
  {
    StrtokScan(l.rest, l.delims);
    StoreFieldExtends(l.phase, l.delims, tok, l.cur, types, |l.acc|);
  }

  /** A stored field that ends a line with its name read appends the entry. */
  lemma NextLineKeepsInvariant(l: Loop, tok: string, used: char, next: string, types: seq<string>)
    requires LoopInvariant(l, types) && Strtok(l.rest, l.delims) == Token(tok, used, next)
    requires StoreField(l.phase, tok, l.cur, types).Stored? && l.phase >= 2
    ensures var filled := StoreField(l.phase, tok, l.cur, types).entry;
            LoopInvariant(Loop(next, FIELD_DELIMS, 0, CLEARED, l.acc + [filled.(id := |l.acc|)], l.line + 1), types)
  {
    var filled := StoreField(l.phase, tok, l.cur, types).entry;
    StrtokScan(l.rest, l.delims);
    StoreFieldExtends(l.phase, l.delims, tok, l.cur, types, |l.acc|);
    var acc := l.acc + [filled.(id := |l.acc|)];
    forall i | 0 <= i < |acc|
      ensures Accepted(acc[i], types) && acc[i].id == i
    {
      if i < |l.acc| {
        assert acc[i] == l.acc[i];
      }
    }
  }

  /** A pass that goes on keeps the invariant and only adds entries. */
  lemma IterateContinues(l: Loop, types: seq<string>)
    requires LoopInvariant(l, types) && Iterate(l, types).Again?
    ensures LoopInvariant(Iterate(l, types).loop, types) && l.acc <= Iterate(l, types).loop.acc
  {
    var t := Strtok(l.rest, l.delims);
    if t.ended == '\n' || t.ended == '\0' {
      NextLineKeepsInvariant(l, t.text, t.ended, t.rest, types);
    } else {
      NextFieldKeepsInvariant(l, t.text, t.ended, t.rest, types);
    }
  }

  lemma {:induction false} ParseFromOutcome(l: Loop, types: seq<string>)
    requires LoopInvariant(l, types)
    ensures Outcome(ParseFrom(l, types), types) && l.acc <= ParseFrom(l, types).symbols
    decreases |l.rest|
  {
    assert ParseFrom(l, types) == Pass(l, types) == Advance(l, types);
    match Iterate(l, types)
    case Done(r) =>
      IterateStops(l, types);
    case Again(l') =>
      IterateContinues(l, types);
      ParseFromOutcome(l', types);
  }

  /** The loop's state before the first strtok call on the file. */
  function Start(contents: string): Loop
  {
    Loop(CStr(contents), FIRST_DELIMS, 0, CLEARED, [], 1)
  }

  /** LoadGameSymbols on the file's contents: the new entries are appended to
      the list (which is not cleared), with ids restarting at 0 and the line
      counter at 1. */
  function LoadGameSymbols(existing: seq<SymbolEntry>, contents: string, types: seq<string>): (r: LoadResult)
    ensures existing <= r.symbols
    ensures forall i :: |existing| <= i < |r.symbols| ==>
              Accepted(r.symbols[i], types) && r.symbols[i].id == i - |existing|
    ensures r.failure.Some? ==> r.failure.value.line == |r.symbols| - |existing| + 1
  {
    var r := ParseFrom(Start(contents), types);
    ParseFromOutcome(Start(contents), types);
    LoadResult(existing + r.symbols, r.failure)
  }

  /** A load into an empty list returns what the loop returns. */
  lemma FreshLoad(contents: string, types: seq<string>, r: LoadResult)
    requires '\0' !in contents
    requires ParseFrom(Loop(contents, FIRST_DELIMS, 0, CLEARED, [], 1), types) == r
    ensures LoadGameSymbols([], contents, types) == r
  {
    CStrOfNulFree(contents);
    assert [] + r.symbols == r.symbols;
  }

  /** The index of the first entry with the id, or none. */
  function IndexOfId(symbols: seq<SymbolEntry>, id: nat): (r: Option<nat>)
    ensures r.None? <==> forall i :: 0 <= i < |symbols| ==> symbols[i].id != id
    ensures r.Some? ==> r.value < |symbols| && symbols[r.value].id == id
                        && forall j :: 0 <= j < r.value ==> symbols[j].id != id
  {
    if |symbols| == 0 then None
    else if symbols[0].id == id then Some(0)
    else match IndexOfId(symbols[1..], id)
      case None => None
      case Some(i) => Some(i + 1)
  }

  /** GetSymbolEntryById: the first entry with the id, or none. */
  function GetSymbolEntryById(symbols: seq<SymbolEntry>, id: nat): (r: Option<SymbolEntry>)
    ensures r.None? <==> forall i :: 0 <= i < |symbols| ==> symbols[i].id != id
    ensures r.Some? ==> exists i :: 0 <= i < |symbols| && symbols[i] == r.value && r.value.id == id
                          && forall j :: 0 <= j < i ==> symbols[j].id != id
  {
    match IndexOfId(symbols, id)
    case None => None
    case Some(i) => Some(symbols[i])
  }

  /** After a load into an empty list, every entry is found by its id. */
  lemma LookupAfterFreshLoad(contents: string, types: seq<string>, i: nat)
    requires i < |LoadGameSymbols([], contents, types).symbols|
    ensures var symbols := LoadGameSymbols([], contents, types).symbols;
            GetSymbolEntryById(symbols, i) == Some(symbols[i])
  {
    var symbols := LoadGameSymbols([], contents, types).symbols;
    assert symbols[i].id == i;
    var r := GetSymbolEntryById(symbols, i);
    if r.Some? {
      var k :| 0 <= k < |symbols| && symbols[k] == r.value && r.value.id == i
               && forall j :: 0 <= j < k ==> symbols[j].id != i;
      assert symbols[k].id == k;
    }
  }

  // ---------------------------------------------------------------------------
  // Round trip: a file written one well-formed line per entry reads back as
  // exactly those entries.

  /** A field that a single strtok call returns whole. */
  predicate Field(s: string, stops: set<char>)
  {
    |s| > 0 && forall i :: 0 <= i < |s| ==> s[i] !in stops && s[i] != '\0'
  }

  /** Every field fits in one strtok token. */
  predicate Printable(e: SymbolEntry)
  {
    && Field(e.addressText, FIELD_DELIMS)
    && Field(e.typeText, FIELD_DELIMS)
    && Field(e.name, FIELD_DELIMS)
    && (e.description.Some? ==> Field(e.description.value, LINE_DELIMS))
  }

  predicate Writable(e: SymbolEntry, types: seq<string>)
  {
    Accepted(e, types) && Printable(e)
  }

  predicate AllWritable(es: seq<SymbolEntry>, types: seq<string>)
  {
    forall i {:trigger Writable(es[i], types)} :: 0 <= i < |es| ==> Writable(es[i], types)
  }

  /** The line `address,type,name[,description]\n` written for `e`, followed by
      `more`. */
  function WriteLine(e: SymbolEntry, more: string): string
  {
    var tail := match e.description
      case None => ['\n'] + more
      case Some(d) => [','] + (d + (['\n'] + more));
    e.addressText + ([','] + (e.typeText + ([','] + (e.name + tail))))
  }

  /** The lines written for `es`, followed by `more`. */
  function WriteLines(es: seq<SymbolEntry>, more: string): string
  {
    if |es| == 0 then more else WriteLine(es[0], WriteLines(es[1..], more))
  }

  /** The symbol file written for `es`. */
  function FormatSymbols(es: seq<SymbolEntry>): string
  {
    WriteLines(es, [])
  }

  lemma WriteLineHasNoNul(e: SymbolEntry, more: string)
    requires Printable(e) && '\0' !in more
    ensures '\0' !in WriteLine(e, more)
  {
  }

  lemma {:induction false} WriteLinesHasNoNul(es: seq<SymbolEntry>, more: string)
    requires forall i :: 0 <= i < |es| ==> Printable(es[i])
    requires '\0' !in more
    ensures '\0' !in WriteLines(es, more)
  {
    if |es| > 0 {
      WriteLinesHasNoNul(es[1..], more);
      WriteLineHasNoNul(es[0], WriteLines(es[1..], more));
    }
  }

  lemma {:induction false} CStrOfNulFree(s: string)
    requires '\0' !in s
    ensures CStr(s) == s
  {
    if |s| > 0 {
      assert forall i :: 0 <= i < |s| - 1 ==> s[1..][i] == s[i + 1];
      CStrOfNulFree(s[1..]);
    }
  }

  /** A pass that goes on leaves the rest of the loop to the next state. */
  lemma ParseFromStep(l: Loop, l': Loop, types: seq<string>, r: LoadResult)
    requires Valid(l) && Iterate(l, types) == Again(l') && ParseFrom(l', types) == r
    ensures ParseFrom(l, types) == r
  {
    assert ParseFrom(l, types) == Pass(l, types) == Advance(l, types);
  }

  /** A pass that stops ends the loop with its result. */
  lemma ParseFromStop(l: Loop, types: seq<string>, r: LoadResult)
    requires Valid(l) && Iterate(l, types) == Done(r)
    ensures ParseFrom(l, types) == r
  {
    assert ParseFrom(l, types) == Pass(l, types) == Advance(l, types);
  }

  /** A pass over a token that is stored: the loop moves to the next field, or,
      when the token ended its line with the name read, to the next line with
      the entry appended. */
  lemma StepOnToken(l: Loop, tok: string, d: char, next: string, types: seq<string>)
    requires Valid(l) && l.rest == tok + ([d] + next) && d in l.delims
    requires |tok| > 0 && forall i :: 0 <= i < |tok| ==> tok[i] !in l.delims
    requires StoreField(l.phase, tok, l.cur, types).Stored?
    ensures var filled := StoreField(l.phase, tok, l.cur, types).entry;
            && (d != '\n' ==> Iterate(l, types) == Again(Loop(next, NextDelims(l.phase), l.phase + 1, filled, l.acc, l.line)))
            && (d == '\n' && l.phase >= 2 ==>
                  Iterate(l, types) == Again(Loop(next, FIELD_DELIMS, 0, CLEARED, l.acc + [filled.(id := |l.acc|)], l.line + 1)))
  {
    assert tok + ([d] + next) == tok + [d] + next;
    StrtokOfToken(tok, d, next, l.delims);
  }

  // Each pass over a well-formed field, stated backwards: the load from the
  // field on ends as the load from the next field on does.

  /** An address followed by a comma clears the entry and stores the value. */
  lemma AddressStep(addr: string, rest: string, delims: set<char>, cur: SymbolEntry,
                    acc: seq<SymbolEntry>, line: nat, types: seq<string>, r: LoadResult)
    requires Field(addr, FIELD_DELIMS) && ParsesFully(addr)
    requires delims == FIRST_DELIMS || delims == FIELD_DELIMS
    requires ParseFrom(Loop(rest, FIELD_DELIMS, 1, CLEARED.(address := StrToULL(addr).value, addressText := addr),
                            acc, line), types) == r
    ensures ParseFrom(Loop(addr + ([','] + rest), delims, 0, cur, acc, line), types) == r
  {
    var l := Loop(addr + ([','] + rest), delims, 0, cur, acc, line);
    StepOnToken(l, addr, ',', rest, types);
    ParseFromStep(l, Iterate(l, types).loop, types, r);
  }

  /** A known type name followed by a comma stores its index. */
  lemma TypeStep(typeText: string, rest: string, cur: SymbolEntry, acc: seq<SymbolEntry>, line: nat,
                 types: seq<string>, r: LoadResult)
    requires Field(typeText, FIELD_DELIMS) && GetTypeNumber(types, typeText).Some?
    requires ParseFrom(Loop(rest, FIELD_DELIMS, 2,
                            cur.(typeIndex := GetTypeNumber(types, typeText).value, typeText := typeText),
                            acc, line), types) == r
    ensures ParseFrom(Loop(typeText + ([','] + rest), FIELD_DELIMS, 1, cur, acc, line), types) == r
  {
    var l := Loop(typeText + ([','] + rest), FIELD_DELIMS, 1, cur, acc, line);
    StepOnToken(l, typeText, ',', rest, types);
    ParseFromStep(l, Iterate(l, types).loop, types, r);
  }

  /** A name followed by a comma: a description comes next. */
  lemma NameStep(name: string, rest: string, cur: SymbolEntry, acc: seq<SymbolEntry>, line: nat,
                 types: seq<string>, r: LoadResult)
    requires Field(name, FIELD_DELIMS)
    requires ParseFrom(Loop(rest, LINE_DELIMS, 3, cur.(name := name), acc, line), types) == r
    ensures ParseFrom(Loop(name + ([','] + rest), FIELD_DELIMS, 2, cur, acc, line), types) == r
  {
    var l := Loop(name + ([','] + rest), FIELD_DELIMS, 2, cur, acc, line);
    StepOnToken(l, name, ',', rest, types);
    ParseFromStep(l, Iterate(l, types).loop, types, r);
  }

  /** A name that ends its line appends the entry with the next id. */
  lemma NameEndStep(name: string, rest: string, cur: SymbolEntry, acc: seq<SymbolEntry>, line: nat,
                    types: seq<string>, r: LoadResult)
    requires Field(name, FIELD_DELIMS)
    requires ParseFrom(Loop(rest, FIELD_DELIMS, 0, CLEARED, acc + [cur.(name := name, id := |acc|)], line + 1),
                       types) == r
    ensures ParseFrom(Loop(name + (['\n'] + rest), FIELD_DELIMS, 2, cur, acc, line), types) == r
  {
    var l := Loop(name + (['\n'] + rest), FIELD_DELIMS, 2, cur, acc, line);
    StepOnToken(l, name, '\n', rest, types);
    ParseFromStep(l, Iterate(l, types).loop, types, r);
  }

  /** A description, which ends its line, appends the entry with the next id. */
  lemma DescriptionStep(desc: string, rest: string, cur: SymbolEntry, acc: seq<SymbolEntry>, line: nat,
                        types: seq<string>, r: LoadResult)
    requires Field(desc, LINE_DELIMS)
    requires ParseFrom(Loop(rest, FIELD_DELIMS, 0, CLEARED,
                            acc + [cur.(description := Some(desc), id := |acc|)], line + 1), types) == r
    ensures ParseFrom(Loop(desc + (['\n'] + rest), LINE_DELIMS, 3, cur, acc, line), types) == r
  {
    var l := Loop(desc + (['\n'] + rest), LINE_DELIMS, 3, cur, acc, line);
    StepOnToken(l, desc, '\n', rest, types);
    ParseFromStep(l, Iterate(l, types).loop, types, r);
  }

  /** Input that is nothing but delimiters ends the load without error. */
  lemma EndOfInput(l: Loop, types: seq<string>)
    requires Valid(l) && forall i :: 0 <= i < |l.rest| ==> l.rest[i] in l.delims
    ensures ParseFrom(l, types) == LoadResult(l.acc, None)
  {
    StrtokScan(l.rest, l.delims);
    ParseFromStop(l, types, LoadResult(l.acc, None));
  }

  /** One written line is read back as its entry: reading it and then the rest
      ends as reading the rest with the entry appended does. */
  lemma LineRoundTrip(e: SymbolEntry, more: string, delims: set<char>, cur: SymbolEntry,
                      acc: seq<SymbolEntry>, types: seq<string>, r: LoadResult)
    requires Writable(e, types) && e.id == |acc|
    requires delims == FIRST_DELIMS || delims == FIELD_DELIMS
    requires ParseFrom(Loop(more, FIELD_DELIMS, 0, CLEARED, acc + [e], |acc| + 2), types) == r
    ensures ParseFrom(Loop(WriteLine(e, more), delims, 0, cur, acc, |acc| + 1), types) == r
  {
    var line := |acc| + 1;
    var tail := match e.description
      case None => ['\n'] + more
      case Some(d) => [','] + (d + (['\n'] + more));
    var afterType := e.name + tail;
    var c0 := CLEARED.(address := e.address, addressText := e.addressText);
    var c1 := c0.(typeIndex := e.typeIndex, typeText := e.typeText);
    // The line is read backwards from its end, each pass keeping the result.
    match e.description {
      case None =>
        assert c1.(name := e.name, id := |acc|) == e;
        NameEndStep(e.name, more, c1, acc, line, types, r);
      case Some(d) =>
        assert c1.(name := e.name).(description := Some(d), id := |acc|) == e;
        DescriptionStep(d, more, c1.(name := e.name), acc, line, types, r);
        NameStep(e.name, d + (['\n'] + more), c1, acc, line, types, r);
    }
    TypeStep(e.typeText, afterType, c0, acc, line, types, r);
    AddressStep(e.addressText, e.typeText + ([','] + afterType), delims, cur, acc, line, types, r);
  }

  /** The lines written for `es`, followed by anything, are read as `es`
      numbered on from the entries already accepted: reading them and then the
      rest ends as reading the rest with `es` appended does. */
  lemma {:induction false} LinesRoundTrip(es: seq<SymbolEntry>, acc: seq<SymbolEntry>, delims: set<char>,
                                          more: string, types: seq<string>, r: LoadResult)
    requires |es| > 0 && AllWritable(es, types) && forall i :: 0 <= i < |es| ==> es[i].id == |acc| + i
    requires delims == FIRST_DELIMS || delims == FIELD_DELIMS
    requires ParseFrom(Loop(more, FIELD_DELIMS, 0, CLEARED, acc + es, |acc| + |es| + 1), types) == r
    ensures ParseFrom(Loop(WriteLines(es, more), delims, 0, CLEARED, acc, |acc| + 1), types) == r
    decreases |es|
  {
    var e, rest := es[0], WriteLines(es[1..], more);
    assert Writable(e, types) && e.id == |acc|;
    assert ParseFrom(Loop(rest, FIELD_DELIMS, 0, CLEARED, acc + [e], |acc| + 2), types) == r by {
      if |es| == 1 {
        assert es[1..] == [] && rest == more && acc + [e] == acc + es;
      } else {
        assert (acc + [e]) + es[1..] == acc + es;
        assert AllWritable(es[1..], types) by {
          forall i | 0 <= i < |es[1..]|
            ensures Writable(es[1..][i], types)
          {
            assert es[1..][i] == es[i + 1];
            assert Writable(es[i + 1], types);
          }
        }
        assert forall i :: 0 <= i < |es[1..]| ==> es[1..][i].id == |acc + [e]| + i;
        LinesRoundTrip(es[1..], acc + [e], FIELD_DELIMS, more, types, r);
      }
    }
    assert WriteLines(es, more) == WriteLine(e, rest);
    LineRoundTrip(e, rest, delims, CLEARED, acc, types, r);
  }

  /** The written file has no NUL, so all of it is read. */
  lemma WrittenHasNoNul(es: seq<SymbolEntry>, more: string, types: seq<string>)
    requires AllWritable(es, types)
    requires '\0' !in more
    ensures '\0' !in WriteLines(es, more)
  {
    forall i | 0 <= i < |es|
      ensures Printable(es[i])
    {
      assert Writable(es[i], types);
    }
    WriteLinesHasNoNul(es, more);
  }

  /** A file that starts with the lines written for `es` ends as reading the
      rest after them with `es` accepted does. */
  lemma ReadWrittenFile(es: seq<SymbolEntry>, more: string, types: seq<string>, r: LoadResult)
    requires |es| > 0 && AllWritable(es, types) && IdsFromZero(es)
    requires ParseFrom(Loop(more, FIELD_DELIMS, 0, CLEARED, es, |es| + 1), types) == r
    ensures ParseFrom(Loop(WriteLines(es, more), FIRST_DELIMS, 0, CLEARED, [], 1), types) == r
  {
    assert [] + es == es;
    LinesRoundTrip(es, [], FIRST_DELIMS, more, types, r);
  }

  /** Writing well-formed entries with ids 0, 1, ... and loading the file into an
      empty list gives back exactly those entries, without error. */
  lemma SymbolFileRoundTrip(es: seq<SymbolEntry>, types: seq<string>)
    requires AllWritable(es, types) && IdsFromZero(es)
    ensures LoadGameSymbols([], FormatSymbols(es), types) == LoadResult(es, None)
  {
    var r := LoadResult(es, None);
    if |es| == 0 {
      EndOfInput(Loop([], FIRST_DELIMS, 0, CLEARED, [], 1), types);
    } else {
      EndOfInput(Loop([], FIELD_DELIMS, 0, CLEARED, es, |es| + 1), types);
      ReadWrittenFile(es, [], types, r);
    }
    WrittenHasNoNul(es, [], types);
    FreshLoad(FormatSymbols(es), types, r);
  }

  // ---------------------------------------------------------------------------
  // Consequences of reading with strtok.

  /** strtok skips a leading delimiter, so an empty line is no token at all. */
  lemma StrtokSkipsDelimiter(d: char, rest: string, delims: set<char>)
    requires d in delims && '\0' !in delims
    ensures Strtok([d] + rest, delims) == Strtok(rest, delims)
  {
    var s := [d] + rest;
    assert s[1..] == rest;
    var skip := Span(s, OneOf(delims));
    assert skip == 1 + Span(rest, OneOf(delims));
    assert s[skip..] == rest[skip - 1..];
  }

  /** A pass depends on the text only through the token strtok returns. */
  lemma IterateByToken(l: Loop, rest: string, types: seq<string>)
    requires Valid(l) && Strtok(l.rest, l.delims) == Strtok(rest, l.delims)
    ensures Iterate(l, types) == Iterate(l.(rest := rest), types)
  {
  }

  /** Blank lines are skipped and not counted: the load ends as it would
      without them, so an error after them reports the number of accepted
      lines plus one, not the line's place in the file. */
  lemma BlankLinesNotCounted(l: Loop, rest: string, types: seq<string>, r: LoadResult)
    requires Valid(l) && l.rest == ['\n'] + rest && '\n' in l.delims
    requires ParseFrom(l.(rest := rest), types) == r
    ensures ParseFrom(l, types) == r
  {
    StrtokSkipsDelimiter('\n', rest, l.delims);
    IterateByToken(l, rest, types);
    match Iterate(l, types)
    case Done(r') =>
      ParseFromStop(l.(rest := rest), types, r');
      ParseFromStop(l, types, r');
    case Again(l') =>
      var l0 := l.(rest := rest);
      assert ParseFrom(l0, types) == Pass(l0, types) == Advance(l0, types) == ParseFrom(l', types);
      ParseFromStep(l, l', types, r);
  }

  /** A type that ends its line leaves the name missing. */
  lemma TypeEndRefused(typeText: string, rest: string, cur: SymbolEntry, acc: seq<SymbolEntry>, line: nat,
                       types: seq<string>)
    requires Field(typeText, FIELD_DELIMS) && GetTypeNumber(types, typeText).Some?
    ensures ParseFrom(Loop(typeText + (['\n'] + rest), FIELD_DELIMS, 1, cur, acc, line), types)
            == LoadResult(acc, Some(Failure(MissingFields, line)))
  {
    assert typeText + (['\n'] + rest) == typeText + ['\n'] + rest;
    StrtokOfToken(typeText, '\n', rest, FIELD_DELIMS);
    var l := Loop(typeText + (['\n'] + rest), FIELD_DELIMS, 1, cur, acc, line);
    ParseFromStop(l, types, LoadResult(acc, Some(Failure(MissingFields, line))));
  }

  /** A first line that ends after its type is refused as missing fields. */
  lemma MissingNameIsRefused(addr: string, typeText: string, more: string, types: seq<string>)
    requires Field(addr, FIELD_DELIMS) && ParsesFully(addr)
    requires Field(typeText, FIELD_DELIMS) && GetTypeNumber(types, typeText).Some?
    requires '\0' !in more
    ensures LoadGameSymbols([], addr + ([','] + (typeText + (['\n'] + more))), types)
            == LoadResult([], Some(Failure(MissingFields, 1)))
  {
    var r := LoadResult([], Some(Failure(MissingFields, 1)));
    var c0 := CLEARED.(address := StrToULL(addr).value, addressText := addr);
    TypeEndRefused(typeText, more, c0, [], 1, types);
    AddressStep(addr, typeText + (['\n'] + more), FIRST_DELIMS, CLEARED, [], 1, types, r);
    FreshLoad(addr + ([','] + (typeText + (['\n'] + more))), types, r);
  }

  /** A line whose address is not a number ends the load with that line's
      number and the entries accepted before it. */
  lemma BadAddressStops(l: Loop, bad: string, more: string, types: seq<string>)
    requires Valid(l) && l.phase == 0 && l.rest == bad + ([','] + more) && ',' in l.delims
    requires Field(bad, FIELD_DELIMS) && !ParsesFully(bad)
    ensures ParseFrom(l, types) == LoadResult(l.acc, Some(Failure(InvalidAddr, l.line)))
  {
    assert bad + ([','] + more) == bad + [','] + more;
    StrtokOfToken(bad, ',', more, l.delims);
    ParseFromStop(l, types, LoadResult(l.acc, Some(Failure(InvalidAddr, l.line))));
  }

  /** The loop over well-formed lines and then a bad address stops at it. */
  lemma BadAddressAfterLines(es: seq<SymbolEntry>, bad: string, more: string, types: seq<string>)
    requires AllWritable(es, types) && IdsFromZero(es)
    requires Field(bad, FIELD_DELIMS) && !ParsesFully(bad)
    ensures ParseFrom(Loop(WriteLines(es, bad + ([','] + more)), FIRST_DELIMS, 0, CLEARED, [], 1), types)
            == LoadResult(es, Some(Failure(InvalidAddr, |es| + 1)))
  {
    var tail := bad + ([','] + more);
    var r := LoadResult(es, Some(Failure(InvalidAddr, |es| + 1)));
    if |es| == 0 {
      BadAddressStops(Loop(tail, FIRST_DELIMS, 0, CLEARED, [], 1), bad, more, types);
    } else {
      BadAddressStops(Loop(tail, FIELD_DELIMS, 0, CLEARED, es, |es| + 1), bad, more, types);
      ReadWrittenFile(es, tail, types, r);
    }
  }

  /** A bad address after well-formed lines stops the load there: the lines
      before it are kept and its number is reported. */
  lemma BadAddressStopsAtLine(es: seq<SymbolEntry>, bad: string, more: string, types: seq<string>)
    requires AllWritable(es, types) && IdsFromZero(es)
    requires Field(bad, FIELD_DELIMS) && !ParsesFully(bad)
    requires '\0' !in more
    ensures LoadGameSymbols([], WriteLines(es, bad + ([','] + more)), types)
            == LoadResult(es, Some(Failure(InvalidAddr, |es| + 1)))
  {
    var tail := bad + ([','] + more);
    BadAddressAfterLines(es, bad, more, types);
    WrittenHasNoNul(es, tail, types);
    FreshLoad(WriteLines(es, tail), types, LoadResult(es, Some(Failure(InvalidAddr, |es| + 1))));
  }

  /** The description phase skips a line break and takes the next line whole,
      which then ends the input. */
  lemma DescriptionTakesNextLine(cur: SymbolEntry, next: string, types: seq<string>)
    requires Field(next, LINE_DELIMS)
    ensures ParseFrom(Loop(['\n'] + (next + "\n"), LINE_DELIMS, 3, cur, [], 1), types)
            == LoadResult([cur.(description := Some(next), id := 0)], None)
  {
    var e := cur.(description := Some(next), id := 0);
    var r := LoadResult([e], None);
    EndOfInput(Loop([], FIELD_DELIMS, 0, CLEARED, [e], 2), types);
    assert [] + [e] == [e];
    DescriptionStep(next, [], cur, [], 1, types, r);
    assert next + (['\n'] + []) == next + "\n";
    BlankLinesNotCounted(Loop(['\n'] + (next + "\n"), LINE_DELIMS, 3, cur, [], 1), next + "\n", types, r);
  }

  /** An empty description after a trailing comma takes the whole next line
      instead, commas and all: strtok on "\n" skips the line break, so the
      line after it is not read as an entry of its own. */
  lemma TrailingCommaTakesNextLine(addr: string, typeText: string, name: string, next: string,
                                   types: seq<string>)
    requires Field(addr, FIELD_DELIMS) && ParsesFully(addr)
    requires Field(typeText, FIELD_DELIMS) && GetTypeNumber(types, typeText).Some?
    requires Field(name, FIELD_DELIMS) && Field(next, LINE_DELIMS)
    ensures LoadGameSymbols([], addr + ([','] + (typeText + ([','] + (name + (",\n" + (next + "\n")))))), types)
            == LoadResult([SymbolEntry(0, StrToULL(addr).value, addr, GetTypeNumber(types, typeText).value,
                                       typeText, name, Some(next))], None)
  {
    var c0 := CLEARED.(address := StrToULL(addr).value, addressText := addr);
    var c1 := c0.(typeIndex := GetTypeNumber(types, typeText).value, typeText := typeText);
    var r := LoadResult([c1.(name := name).(description := Some(next), id := 0)], None);
    DescriptionTakesNextLine(c1.(name := name), next, types);
    NameStep(name, ['\n'] + (next + "\n"), c1, [], 1, types, r);
    assert [','] + (['\n'] + (next + "\n")) == ",\n" + (next + "\n");
    var afterType := name + (",\n" + (next + "\n"));
    TypeStep(typeText, afterType, c0, [], 1, types, r);
    var afterAddr := typeText + ([','] + afterType);
    AddressStep(addr, afterAddr, FIRST_DELIMS, CLEARED, [], 1, types, r);
    FreshLoad(addr + ([','] + afterAddr), types, r);
  }

  /** A trailing comma on the last line, with nothing after it, loses that
      line: the input ends before the entry is stored, and without an error. */
  lemma TrailingCommaAtEndDropsLine(addr: string, typeText: string, name: string, types: seq<string>)
    requires Field(addr, FIELD_DELIMS) && ParsesFully(addr)
    requires Field(typeText, FIELD_DELIMS) && GetTypeNumber(types, typeText).Some?
    requires Field(name, FIELD_DELIMS)
    ensures LoadGameSymbols([], addr + ([','] + (typeText + ([','] + (name + [','])))), types)
            == LoadResult([], None)
  {
    var c0 := CLEARED.(address := StrToULL(addr).value, addressText := addr);
    var c1 := c0.(typeIndex := GetTypeNumber(types, typeText).value, typeText := typeText);
    var r := LoadResult([], None);
    EndOfInput(Loop([], LINE_DELIMS, 3, c1.(name := name), [], 1), types);
    NameStep(name, [], c1, [], 1, types, r);
    assert [','] + [] == [','];
    var afterType := name + [','];
    TypeStep(typeText, afterType, c0, [], 1, types, r);
    var afterAddr := typeText + ([','] + afterType);
    AddressStep(addr, afterAddr, FIRST_DELIMS, CLEARED, [], 1, types, r);
    FreshLoad(addr + ([','] + afterAddr), types, r);
  }
}
