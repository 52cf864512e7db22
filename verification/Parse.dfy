/** Decoded JSON documents, as json-c hands them out: an object is an ordered list of entries. */
module Json {
  datatype Value = JsonNull | JsonBoolean | JsonDouble | JsonInt | JsonObject | JsonArray | JsonString(text: string)

  datatype Entry = Entry(key: string, value: Value)

  /** What the tokener makes of a text: an object, or anything else (a parse error included). */
  datatype Document = NotAnObject | Members(entries: seq<Entry>)

  ghost predicate UniqueKeys(es: seq<Entry>) {
    forall i, j :: 0 <= i < |es| && 0 <= j < |es| && es[i].key == es[j].key ==> i == j
  }
}

/** Message parsing: src/parse.c. */
module Parse {
  import opened Basics
  import opened Json

  const AGENT_TYPE_LINUX_NVIDIA := "linux-claymore-nvidia"
  const AGENT_TYPE_UX := "ux"

  datatype AgentType = ReqInvalid | ReqUx | ReqLinuxClaymore | ReqWindowClaymore

  // ---------- get_agent_type ----------

  function Classify(text: string): AgentType {
    if CString(text) == AGENT_TYPE_LINUX_NVIDIA then ReqLinuxClaymore
    else if CString(text) == AGENT_TYPE_UX then ReqUx
    else ReqInvalid
  }

  ghost predicate FirstStringAt(es: seq<Entry>, i: int) {
    && 0 <= i < |es| && es[i].value.JsonString?
    && forall j :: 0 <= j < i ==> !es[j].value.JsonString?
  }

  function AgentTypeOf(es: seq<Entry>): (t: AgentType)
    ensures forall i :: FirstStringAt(es, i) ==> t == Classify(es[i].value.text)
    ensures (forall i :: 0 <= i < |es| ==> !es[i].value.JsonString?) ==> t == ReqInvalid
    ensures t != ReqWindowClaymore
  {
    if es == [] then ReqInvalid
    else if es[0].value.JsonString? then Classify(es[0].value.text)
    else
      assert forall i :: FirstStringAt(es, i) ==> FirstStringAt(es[1..], i - 1);
      AgentTypeOf(es[1..])
  }

  /** get_agent_type: a scan with early exit at the first string-valued entry. */
  method GetAgentType(es: seq<Entry>) returns (t: AgentType)
    ensures t == AgentTypeOf(es)
  {
    for i := 0 to |es|
      invariant forall j :: 0 <= j < i ==> !es[j].value.JsonString?
    {
      match es[i].value {
        case JsonString(text) =>
          assert FirstStringAt(es, i);
          if CString(text) == AGENT_TYPE_LINUX_NVIDIA {
            return ReqLinuxClaymore;
          } else if CString(text) == AGENT_TYPE_UX {
            return ReqUx;
          }
          return ReqInvalid;
        case _ =>
      }
    }
    t := ReqInvalid;
  }

  /** The texts of the string-valued entries, in order. */
  function Texts(es: seq<Entry>): seq<string> {
    if es == [] then []
    else (if es[0].value.JsonString? then [es[0].value.text] else []) + Texts(es[1..])
  }

  /** Only the first string-valued entry counts: whatever else two messages hold, and wherever
      their non-string entries stand, equal first texts give equal agent types. */
  lemma {:induction false} AgentTypeFromFirstText(es: seq<Entry>, fs: seq<Entry>)
    requires (Texts(es) == []) == (Texts(fs) == [])
    requires Texts(es) != [] ==> Texts(es)[0] == Texts(fs)[0]
    ensures AgentTypeOf(es) == AgentTypeOf(fs)
  {
    AgentTypeIsFirstText(es);
    AgentTypeIsFirstText(fs);
  }

  lemma {:induction false} AgentTypeIsFirstText(es: seq<Entry>)
    ensures AgentTypeOf(es) == if Texts(es) == [] then ReqInvalid else Classify(Texts(es)[0])
  {
    if es != [] {
      AgentTypeIsFirstText(es[1..]);
    }
  }

  lemma {:induction false} TextsOfConcat(es: seq<Entry>, fs: seq<Entry>)
    ensures Texts(es + fs) == Texts(es) + Texts(fs)
  {
    if es == [] {
      assert es + fs == fs;
    } else {
      TextsOfConcat(es[1..], fs);
      assert (es + fs)[0] == es[0] && (es + fs)[1..] == es[1..] + fs;
      var head := if es[0].value.JsonString? then [es[0].value.text] else [];
      assert head + (Texts(es[1..]) + Texts(fs)) == (head + Texts(es[1..])) + Texts(fs);
    }
  }

  /** The two type names, written out: a message is a UX command or an agent's message exactly when its
      first text says so, and of no known type otherwise. */
  lemma AgentTypeIff(es: seq<Entry>)
    ensures AgentTypeOf(es) == ReqUx <==> Texts(es) != [] && CString(Texts(es)[0]) == "ux"
    ensures AgentTypeOf(es) == ReqLinuxClaymore <==>
            Texts(es) != [] && CString(Texts(es)[0]) == "linux-claymore-nvidia"
    ensures AgentTypeOf(es) == ReqInvalid <==>
            Texts(es) == [] || CString(Texts(es)[0]) !in {"ux", "linux-claymore-nvidia"}
  {
    AgentTypeIsFirstText(es);
  }

  /** Inserting a non-string entry anywhere, or replacing everything after the first string,
      leaves the agent type alone. */
  lemma AgentTypeEdits(before: seq<Entry>, e: Entry, after: seq<Entry>, other: seq<Entry>)
    ensures !e.value.JsonString? ==> AgentTypeOf(before + [e] + after) == AgentTypeOf(before + after)
    ensures e.value.JsonString? ==> AgentTypeOf(before + [e] + after) == AgentTypeOf(before + [e] + other)
  {
    TextsOfConcat(before + [e], after);
    TextsOfConcat(before + [e], other);
    TextsOfConcat(before, [e]);
    TextsOfConcat(before, after);
    assert Texts([e]) == if e.value.JsonString? then [e.value.text] else [];
    AgentTypeIsFirstText(before + [e] + after);
    AgentTypeIsFirstText(before + [e] + other);
    AgentTypeIsFirstText(before + after);
  }

  /** Looking at the first key alone, as the comment above get_agent_type has it, gives the same type
      exactly when that entry is a string, or no later one is, or the first later text is neither of
      the two type names. */
  lemma FirstKeySufficesIff(es: seq<Entry>)
    requires es != []
    ensures AgentTypeOf(es) == AgentTypeOf(es[..1])
            <==> es[0].value.JsonString? || Texts(es[1..]) == []
                 || CString(Texts(es[1..])[0]) !in {AGENT_TYPE_LINUX_NVIDIA, AGENT_TYPE_UX}
  {
    AgentTypeIsFirstText(es[1..]);
    assert es[..1][0] == es[0];
    assert AgentTypeOf(es[..1][1..]) == ReqInvalid;
  }

  /** A message whose type is decided by its second key. */
  lemma FirstKeyDoesNotSuffice()
    ensures exists es :: es != [] && UniqueKeys(es) && AgentTypeOf(es) == ReqUx && AgentTypeOf(es[..1]) == ReqInvalid
  {
    var es := [Entry("sequence", JsonInt), Entry("agent_type", JsonString("ux"))];
    assert CString("ux") == "ux" && es[1..] == [es[1]];
    assert AgentTypeOf(es[1..]) == ReqUx;
    assert AgentTypeOf(es) == ReqUx;
    FirstKeySufficesIff(es);
    assert es[..1] == [es[0]] && AgentTypeOf([es[0]]) == ReqInvalid;
  }

  /** The order of the string entries does matter to the agent type. */
  lemma AgentTypeIsOrderSensitive()
    ensures exists es, fs :: multiset(es) == multiset(fs) && UniqueKeys(es) && AgentTypeOf(es) != AgentTypeOf(fs)
  {
    var a, b := Entry("agent_type", JsonString("ux")), Entry("miner_mac", JsonString(""));
    assert CString("ux") == "ux";
    assert AgentTypeOf([a, b]) == ReqUx;
    assert AgentTypeOf([b, a]) == ReqInvalid;
    assert multiset([a, b]) == multiset([b, a]);
    assert UniqueKeys([a, b]);
  }

  // ---------- session_t and the two field parsers ----------

  /** The contents of a session_t.  `pathInstall` can be the null pointer. */
  datatype SessionData = SessionData(
    fd: int, agentType: AgentType, cmdType: string, minerMac: string,
    path: string, pathInstall: Option<string>, sequence: int)

  class Session {
    var fd: int
    var agentType: AgentType
    var cmdType: string
    var minerMac: string
    var path: string
    var pathInstall: Option<string>
    var sequence: int

    /** malloc without initialisation: the contents are whatever was there. */
    constructor (junk: SessionData)
      ensures Contents() == junk
    {
      fd, agentType, cmdType, minerMac := junk.fd, junk.agentType, junk.cmdType, junk.minerMac;
      path, pathInstall, sequence := junk.path, junk.pathInstall, junk.sequence;
    }

    function Contents(): SessionData
      reads this
    {
      SessionData(fd, agentType, cmdType, minerMac, path, pathInstall, sequence)
    }
  }

  predicate IsDigit(c: char) { '0' <= c <= '9' }

  predicate IsSpace(c: char) { c == ' ' || '\t' <= c <= '\r' }

  function Digits(s: string, acc: int): int
    decreases |s|
  {
    if s == [] || !IsDigit(s[0]) then acc else Digits(s[1..], 10 * acc + (s[0] as int - '0' as int))
  }

  /** atoi, with no bound on the result (overflow is undefined in C). */
  function Atoi(s: string): int {
    if s == [] then 0
    else if IsSpace(s[0]) then Atoi(s[1..])
    else if s[0] == '-' then -Digits(s[1..], 0)
    else if s[0] == '+' then Digits(s[1..], 0)
    else Digits(s, 0)
  }

  /** The text of the last string-valued entry under `key`. */
  function LastString(es: seq<Entry>, key: string): Option<string> {
    if es == [] then None
    else
      var e := es[|es| - 1];
      if e.key == key && e.value.JsonString? then Some(e.value.text)
      else LastString(es[..|es| - 1], key)
  }

  function Or(found: Option<string>, fallback: string): string {
    if found.Some? then CString(found.value) else fallback
  }

  /** What a command message leaves in the session: one independent lookup per key. */
  function CmdFields(es: seq<Entry>, s: SessionData): SessionData {
    var sequence := LastString(es, "sequence");
    var install := LastString(es, "path_install");
    s.(cmdType := Or(LastString(es, "commend_type"), s.cmdType),
       minerMac := Or(LastString(es, "miner_mac"), s.minerMac),
       path := Or(LastString(es, "path"), s.path),
       sequence := if sequence.Some? then Atoi(CString(sequence.value)) else s.sequence,
       pathInstall := if install.None? then s.pathInstall
                      else if |install.value| != 0 then Some(CString(install.value)) else None)
  }

  /** What an agent message leaves in the session. */
  function AgentFields(es: seq<Entry>, s: SessionData): SessionData {
    s.(minerMac := Or(LastString(es, "miner_mac"), s.minerMac))
  }

  // ---------- what atoi reads ----------

  predicate AllDigits(s: string) {
    forall i :: 0 <= i < |s| ==> IsDigit(s[i])
  }

  /** The number a string of decimal digits stands for, leading zeros allowed. */
  function Decimal(d: string): nat
    requires AllDigits(d)
  {
    if d == "" then 0
    else
      var n := |d| - 1;
      10 * Decimal(d[..n]) + (d[n] as int - '0' as int)
  }

  /** The decimal numeral of a number. */
  function Numeral(n: nat): (d: string)
    ensures d != "" && AllDigits(d)
  {
    var last := ['0' + (n % 10) as char];
    if n < 10 then last else Numeral(n / 10) + last
  }

  lemma {:induction false} DecimalOfNumeral(n: nat)
    ensures Decimal(Numeral(n)) == n
  {
    var d := Numeral(n);
    var k := |d| - 1;
    assert d[k] == '0' + (n % 10) as char;
    if n < 10 {
      assert d[..k] == "";
    } else {
      assert d[..k] == Numeral(n / 10);
      DecimalOfNumeral(n / 10);
    }
  }

  lemma {:induction false} DigitsRead(d: string, rest: string)
    requires AllDigits(d)
    ensures Digits(d + rest, 0) == Digits(rest, Decimal(d))
  {
    if d == "" {
      assert d + rest == rest;
    } else {
      var n := |d| - 1;
      var tail := [d[n]] + rest;
      DigitsRead(d[..n], tail);
      assert d + rest == d[..n] + tail && tail[1..] == rest;
    }
  }

  lemma {:induction false} AtoiSkipsSpace(ws: string, s: string)
    requires forall i :: 0 <= i < |ws| ==> IsSpace(ws[i])
    ensures Atoi(ws + s) == Atoi(s)
  {
    if ws == "" {
      assert ws + s == s;
    } else {
      assert (ws + s)[1..] == ws[1..] + s;
      AtoiSkipsSpace(ws[1..], s);
    }
  }

  /** atoi reads decimal numbers: white space, a sign or none, digits up to the first other character;
      and 0 if there are no digits where they are expected. */
  lemma AtoiReadsDecimals(ws: string, d: string, rest: string)
    requires (forall i :: 0 <= i < |ws| ==> IsSpace(ws[i])) && AllDigits(d)
    requires rest == "" || !IsDigit(rest[0])
    ensures Atoi(ws + ("-" + (d + rest))) == 0 - Decimal(d) && Atoi(ws + ("+" + (d + rest))) == Decimal(d)
    ensures d != "" ==> Atoi(ws + (d + rest)) == Decimal(d)
    ensures rest == "" || (!IsSpace(rest[0]) && rest[0] !in {'-', '+'}) ==> Atoi(ws + rest) == 0
  {
    AtoiSkipsSpace(ws, "-" + (d + rest));
    AtoiSkipsSpace(ws, "+" + (d + rest));
    AtoiSkipsSpace(ws, d + rest);
    AtoiSkipsSpace(ws, rest);
    DigitsRead(d, rest);
    assert ("-" + (d + rest))[1..] == d + rest && ("+" + (d + rest))[1..] == d + rest;
    assert d != "" ==> (d + rest)[0] == d[0] && IsDigit(d[0]);
  }

  /** In particular it undoes the writing of a number. */
  lemma AtoiReadsNumerals(n: nat, rest: string)
    requires rest == "" || !IsDigit(rest[0])
    ensures Atoi(Numeral(n) + rest) == n && Atoi("-" + (Numeral(n) + rest)) == 0 - n
  {
    DecimalOfNumeral(n);
    AtoiReadsDecimals("", Numeral(n), rest);
    assert "" + (Numeral(n) + rest) == Numeral(n) + rest;
    assert "" + ("-" + (Numeral(n) + rest)) == "-" + (Numeral(n) + rest);
  }

  // ---------- which entry decides a field ----------

  predicate TextUnder(e: Entry, key: string) {
    e.key == key && e.value.JsonString?
  }

  predicate Has(es: seq<Entry>, key: string) {
    exists i :: 0 <= i < |es| && TextUnder(es[i], key)
  }

  /** Entry i is the last string under `key`. */
  predicate LastUnder(es: seq<Entry>, key: string, i: int) {
    0 <= i < |es| && TextUnder(es[i], key) && forall j :: i < j < |es| ==> !TextUnder(es[j], key)
  }

  lemma {:induction false} LastStringIsLast(es: seq<Entry>, key: string)
    ensures LastString(es, key).None? <==> !Has(es, key)
    ensures forall i :: LastUnder(es, key, i) ==> LastString(es, key) == Some(es[i].value.text)
  {
    if es != [] {
      var n := |es| - 1;
      var init := es[..n];
      LastStringIsLast(init, key);
      if TextUnder(es[n], key) {
        assert forall i :: LastUnder(es, key, i) ==> i == n;
      } else {
        LastUnderInit(es, key);
      }
    }
  }

  lemma LastUnderInit(es: seq<Entry>, key: string)
    requires es != [] && !TextUnder(es[|es| - 1], key)
    ensures Has(es, key) <==> Has(es[..|es| - 1], key)
    ensures forall i :: LastUnder(es, key, i) ==> LastUnder(es[..|es| - 1], key, i)
  {
    assert forall i :: 0 <= i < |es| - 1 ==> es[..|es| - 1][i] == es[i];
  }

  lemma HasIffFound(es: seq<Entry>, key: string)
    ensures Has(es, key) <==> LastString(es, key).Some?
  {
    LastStringIsLast(es, key);
  }

  /** A command sets each of its five fields from the last string under its key, and leaves it alone if
      there is none; an empty path_install is the null pointer; nothing else changes. */
  lemma CommandFieldsIff(es: seq<Entry>, s: SessionData, i: int)
    ensures var r := CmdFields(es, s);
            && r.fd == s.fd && r.agentType == s.agentType
            && (LastUnder(es, "commend_type", i) ==> r.cmdType == CString(es[i].value.text))
            && (LastUnder(es, "miner_mac", i) ==> r.minerMac == CString(es[i].value.text))
            && (LastUnder(es, "path", i) ==> r.path == CString(es[i].value.text))
            && (LastUnder(es, "sequence", i) ==> r.sequence == Atoi(CString(es[i].value.text)))
            && (LastUnder(es, "path_install", i) ==>
                  r.pathInstall == if es[i].value.text == "" then None else Some(CString(es[i].value.text)))
    ensures var r := CmdFields(es, s);
            && (!Has(es, "commend_type") ==> r.cmdType == s.cmdType)
            && (!Has(es, "miner_mac") ==> r.minerMac == s.minerMac)
            && (!Has(es, "path") ==> r.path == s.path)
            && (!Has(es, "sequence") ==> r.sequence == s.sequence)
            && (!Has(es, "path_install") ==> r.pathInstall == s.pathInstall)
  {
    LastStringIsLast(es, "commend_type");
    LastStringIsLast(es, "miner_mac");
    LastStringIsLast(es, "path");
    LastStringIsLast(es, "sequence");
    LastStringIsLast(es, "path_install");
  }

  /** A sequence number arrives as the number the peer wrote. */
  lemma SequenceArrives(es: seq<Entry>, s: SessionData, i: int, n: nat)
    requires LastUnder(es, "sequence", i)
    ensures es[i].value.text == Numeral(n) ==> CmdFields(es, s).sequence == n
    ensures es[i].value.text == "-" + Numeral(n) ==> CmdFields(es, s).sequence == 0 - n
  {
    CommandFieldsIff(es, s, i);
    AtoiReadsNumerals(n, "");
    assert Numeral(n) + "" == Numeral(n);
    NulFree(Numeral(n));
    NulFree("-" + Numeral(n));
  }

  lemma NulFree(text: string)
    requires '\0' !in text
    ensures CString(text) == text
  {
  }

  /** An agent's message sets the mac from the last string under its key, or leaves it alone; it changes
      nothing else. */
  lemma AgentFieldsIff(es: seq<Entry>, s: SessionData, i: int)
    ensures AgentFields(es, s) == s.(minerMac := AgentFields(es, s).minerMac)
    ensures LastUnder(es, "miner_mac", i) ==> AgentFields(es, s).minerMac == CString(es[i].value.text)
    ensures !Has(es, "miner_mac") ==> AgentFields(es, s) == s
  {
    LastStringIsLast(es, "miner_mac");
  }

  // ---------- the two parsers, in place ----------

  /** parse_json_cmd: one pass over the entries, writing the session in place. */
  method ParseJsonCmd(es: seq<Entry>, session: Session)
    modifies session
    ensures session.Contents() == CmdFields(es, old(session.Contents()))
  {
    for i := 0 to |es|
      invariant session.Contents() == CmdFields(es[..i], old(session.Contents()))
    {
      assert es[..i + 1][..i] == es[..i];
      match es[i].value {
        case JsonString(text) =>
          var key := es[i].key;
          if key == "commend_type" {
            session.cmdType := CString(text);
          } else if key == "sequence" {
            session.sequence := Atoi(CString(text));
          } else if key == "miner_mac" {
            session.minerMac := CString(text);
          } else if key == "path" {
            if |text| != 0 {
              session.path := CString(text);
            } else {
              session.path := "";
            }
          } else if key == "path_install" {
            if |text| != 0 {
              session.pathInstall := Some(CString(text));
            } else {
              session.pathInstall := None;
            }
          }
        case _ =>
      }
    }
    assert es[..|es|] == es;
  }

  /** parse_json_agent. */
  method ParseJsonAgent(es: seq<Entry>, session: Session)
    modifies session
    ensures session.Contents() == AgentFields(es, old(session.Contents()))
  {
    for i := 0 to |es|
      invariant session.Contents() == AgentFields(es[..i], old(session.Contents()))
    {
      assert es[..i + 1][..i] == es[..i];
      if es[i].value.JsonString? && es[i].key == "miner_mac" {
        session.minerMac := CString(es[i].value.text);
      }
    }
    assert es[..|es|] == es;
  }

  // ---------- order independence of the field parsers ----------

  /** With unique keys the one-pass loop is a plain membership question. */
  lemma {:induction false} LastStringIsMembership(es: seq<Entry>, key: string, text: string)
    requires UniqueKeys(es)
    ensures LastString(es, key) == Some(text) <==> Entry(key, JsonString(text)) in es
  {
    if es != [] {
      var init := es[..|es| - 1];
      assert es == init + [es[|es| - 1]];
      LastStringIsMembership(init, key, text);
      if es[|es| - 1].key == key {
        assert Entry(key, JsonString(text)) !in init;
      }
    }
  }

  lemma {:induction false} UniqueMultiplicity(es: seq<Entry>, e: Entry)
    requires UniqueKeys(es)
    ensures multiset(es)[e] <= 1
  {
    if es != [] {
      var init := es[..|es| - 1];
      assert es == init + [es[|es| - 1]];
      UniqueMultiplicity(init, e);
      if es[|es| - 1] == e {
        assert e !in init;
      }
    }
  }

  lemma RepeatedEntryCounts(es: seq<Entry>, i: nat, j: nat)
    requires i < j < |es| && es[i] == es[j]
    ensures multiset(es)[es[i]] >= 2
  {
    assert es == es[..j] + [es[j]] + es[j + 1..];
    assert es[i] in es[..j];
  }

  lemma UniqueKeysPermute(es: seq<Entry>, fs: seq<Entry>)
    requires UniqueKeys(es) && multiset(es) == multiset(fs)
    ensures UniqueKeys(fs)
  {
    forall i, j | 0 <= i < j < |fs|
      ensures fs[i].key != fs[j].key
    {
      assert fs[i] in multiset(fs) && fs[j] in multiset(fs);
      assert fs[i] in es && fs[j] in es;
      if fs[i] == fs[j] {
        RepeatedEntryCounts(fs, i, j);
        UniqueMultiplicity(es, fs[i]);
      }
    }
  }

  lemma FoundStringCarriesOver(es: seq<Entry>, fs: seq<Entry>, key: string)
    requires UniqueKeys(es) && UniqueKeys(fs) && multiset(es) == multiset(fs)
    requires LastString(es, key).Some?
    ensures LastString(fs, key) == LastString(es, key)
  {
    var text := LastString(es, key).value;
    LastStringIsMembership(es, key, text);
    LastStringIsMembership(fs, key, text);
    assert Entry(key, JsonString(text)) in multiset(es);
  }

  lemma LastStringPermutes(es: seq<Entry>, fs: seq<Entry>, key: string)
    requires UniqueKeys(es) && multiset(es) == multiset(fs)
    ensures LastString(es, key) == LastString(fs, key)
  {
    UniqueKeysPermute(es, fs);
    if LastString(es, key).Some? {
      FoundStringCarriesOver(es, fs, key);
    }
    if LastString(fs, key).Some? {
      FoundStringCarriesOver(fs, es, key);
    }
  }

  /** The order of the entries never matters to the fields a message sets. */
  lemma FieldsIgnoreOrder(es: seq<Entry>, fs: seq<Entry>, s: SessionData)
    requires UniqueKeys(es) && multiset(es) == multiset(fs)
    ensures CmdFields(es, s) == CmdFields(fs, s) && AgentFields(es, s) == AgentFields(fs, s)
  {
    LastStringPermutes(es, fs, "commend_type");
    LastStringPermutes(es, fs, "sequence");
    LastStringPermutes(es, fs, "miner_mac");
    LastStringPermutes(es, fs, "path");
    LastStringPermutes(es, fs, "path_install");
  }
}
