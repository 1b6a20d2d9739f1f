/**
 The peer roster in a response body: one `name,id,status` line per peer.  The loops of the two
 read handlers are proved against one declarative reading of the body.
 */
module Roster {
  import opened Options
  import opened Text
  import opened Decimal

  /** How one line of a body is read; the laws below hold for any such reading. */
  type Reading = string -> Option<Entry>

  datatype Entry = Entry(name: string, id: int, status: int)

  /** A line needs three non-empty fields; with fewer the handlers index out of range. */
  function ReadLine(line: string): Option<Entry>
  {
    var f := SplitSkip(line, ",");
    if |f| < 3 then None else Some(Entry(f[0], ToInt(f[1]), ToInt(f[2])))
  }

  /** All lines read, or nothing. */
  function ReadLines(read: Reading, lines: seq<string>): Option<seq<Entry>>
  {
    if lines == [] then Some([])
    else
      var n := |lines| - 1;
      match ReadLines(read, lines[..n])
      case None => None
      case Some(es) =>
        match read(lines[n])
        case None => None
        case Some(e) => Some(es + [e])
  }

  function ReadBody(body: string): Option<seq<Entry>>
  {
    ReadLines(ReadLine, SplitSkip(body, "\n"))
  }

  /** Someone else, with a nonzero status. */
  predicate Accepts(user: string, e: Entry)
  {
    e.name != user && e.status != 0
  }

  function Accepted(user: string, es: seq<Entry>): seq<Entry>
  {
    if es == [] then []
    else
      var n := |es| - 1;
      if Accepts(user, es[n]) then Accepted(user, es[..n]) + [es[n]] else Accepted(user, es[..n])
  }

  function Names(es: seq<Entry>): seq<string>
  {
    if es == [] then [] else Names(es[..|es| - 1]) + [es[|es| - 1].name]
  }

  /** `peers[e.name] = e.id` for each entry in turn. */
  function Store(peers: map<string, int>, es: seq<Entry>): map<string, int>
  {
    if es == [] then peers
    else Store(peers, es[..|es| - 1])[es[|es| - 1].name := es[|es| - 1].id]
  }

  /** Search from the end of a log of entries. */
  function LastId(es: seq<Entry>, name: string): Option<int>
  {
    if es == [] then None
    else if es[|es| - 1].name == name then Some(es[|es| - 1].id)
    else LastId(es[..|es| - 1], name)
  }

  /* ---------- laws of the reading ---------- */

  lemma AcceptedSnoc(user: string, es: seq<Entry>, e: Entry)
    ensures Accepted(user, es + [e])
         == if Accepts(user, e) then Accepted(user, es) + [e] else Accepted(user, es)
  {
    assert (es + [e])[..|es|] == es;
  }

  lemma NamesSnoc(es: seq<Entry>, e: Entry)
    ensures Names(es + [e]) == Names(es) + [e.name]
  {
    assert (es + [e])[..|es|] == es;
  }

  lemma StoreSnoc(peers: map<string, int>, es: seq<Entry>, e: Entry)
    ensures Store(peers, es + [e]) == Store(peers, es)[e.name := e.id]
  {
    assert (es + [e])[..|es|] == es;
  }

  /** A line of non-empty fields: the first three count, further ones change nothing, fewer stop the handlers. */
  lemma FieldsRead(fs: seq<string>)
    requires fs != [] && CommaFree(fs) && forall i :: 0 <= i < |fs| ==> fs[i] != ""
    ensures ReadLine(Join(fs, ",")) == if |fs| < 3 then None else Some(Entry(fs[0], ToInt(fs[1]), ToInt(fs[2])))
  {
    SplitOfJoin(fs);
    NonEmptyAll(fs);
  }

  /** Empty fields, wherever they stand, are skipped. */
  lemma EmptyFieldIgnored(xs: seq<string>, ys: seq<string>)
    requires xs + ys != [] && CommaFree(xs + ys)
    ensures ReadLine(Join(xs + [""] + ys, ",")) == ReadLine(Join(xs + ys, ","))
  {
    var zs := xs + [""] + ys;
    forall i | 0 <= i < |zs| ensures ',' !in zs[i] {
      if i != |xs| { assert zs[i] == (xs + ys)[if i < |xs| then i else i - 1]; }
    }
    SplitOfJoin(zs);
    SplitOfJoin(xs + ys);
    NonEmptyAppend(xs + [""], ys);
    NonEmptySnoc(xs, "");
    NonEmptyAppend(xs, ys);
  }

  /** One entry is kept exactly when it names someone else with a status other than 0. */
  lemma AcceptedOne(user: string, e: Entry)
    ensures Accepted(user, [e]) == if e.name != user && e.status != 0 then [e] else []
  {
    AcceptedSnoc(user, [], e);
    assert [] + [e] == [e];
  }

  /** Order and repetitions are kept. */
  lemma {:induction false} AcceptedAppend(user: string, xs: seq<Entry>, ys: seq<Entry>)
    ensures Accepted(user, xs + ys) == Accepted(user, xs) + Accepted(user, ys)
    decreases |ys|
  {
    if ys == [] {
      assert xs + ys == xs;
    } else {
      var n := |ys| - 1;
      AcceptedAppend(user, xs, ys[..n]);
      assert (xs + ys)[..|xs + ys| - 1] == xs + ys[..n];
    }
  }

  lemma {:induction false} NamesAt(es: seq<Entry>, i: nat)
    requires i < |es|
    ensures |Names(es)| == |es| && Names(es)[i] == es[i].name
    decreases |es|
  {
    var n := |es| - 1;
    if n == 0 {
      assert Names(es[..n]) == [];
    } else {
      NamesAt(es[..n], if i < n then i else 0);
    }
  }

  /** The search from the end finds the last entry with the name. */
  lemma {:induction false} LastIdIsLast(es: seq<Entry>, i: nat)
    requires i < |es| && forall j :: i < j < |es| ==> es[j].name != es[i].name
    ensures LastId(es, es[i].name) == Some(es[i].id)
    decreases |es|
  {
    if i < |es| - 1 {
      LastIdIsLast(es[..|es| - 1], i);
    }
  }

  /** What acceptance keeps: never the user, never a zero status, nothing new, nothing else lost. */
  lemma {:induction false} AcceptedMembers(user: string, es: seq<Entry>, e: Entry)
    ensures e in Accepted(user, es) <==> e in es && e.name != user && e.status != 0
    decreases |es|
  {
    if es != [] {
      var n := |es| - 1;
      AcceptedMembers(user, es[..n], e);
      assert es == es[..n] + [es[n]];
    }
  }

  lemma {:induction false} NamesMembers(es: seq<Entry>, name: string)
    ensures name in Names(es) <==> exists e :: e in es && e.name == name
    decreases |es|
  {
    if es != [] {
      var n := |es| - 1;
      NamesMembers(es[..n], name);
      assert es == es[..n] + [es[n]];
      if e :| e in es[..n] && e.name == name { assert e in es; }
      if es[n].name == name { assert es[n] in es; }
    }
  }

  lemma UserNeverNamed(user: string, es: seq<Entry>)
    ensures user !in Names(Accepted(user, es))
  {
    NamesMembers(Accepted(user, es), user);
    if e :| e in Accepted(user, es) && e.name == user {
      AcceptedMembers(user, es, e);
    }
  }

  lemma {:induction false} LastIdAppend(xs: seq<Entry>, ys: seq<Entry>, name: string)
    ensures LastId(xs + ys, name) == if LastId(ys, name).Some? then LastId(ys, name) else LastId(xs, name)
    decreases |ys|
  {
    if ys == [] {
      assert xs + ys == xs;
    } else {
      assert (xs + ys)[..|xs + ys| - 1] == xs + ys[..|ys| - 1];
      LastIdAppend(xs, ys[..|ys| - 1], name);
    }
  }

  /** The incremental index agrees with a search over the log. */
  lemma {:induction false} StoreIsLastId(peers: map<string, int>, es: seq<Entry>, name: string)
    ensures name in Store(peers, es) <==> name in peers || LastId(es, name).Some?
    ensures name in Store(peers, es) ==>
              Store(peers, es)[name] == if LastId(es, name).Some? then LastId(es, name).value else peers[name]
    decreases |es|
  {
    if es != [] {
      StoreIsLastId(peers, es[..|es| - 1], name);
    }
  }

  lemma {:induction false} LastIdSome(es: seq<Entry>, name: string)
    ensures LastId(es, name).Some? <==> name in Names(es)
    decreases |es|
  {
    if es != [] {
      LastIdSome(es[..|es| - 1], name);
    }
  }

  /* ---------- the loops ---------- */

  lemma ReadLinesSnoc(read: Reading, lines: seq<string>, line: string)
    ensures ReadLines(read, lines + [line])
         == if ReadLines(read, lines).None? || read(line).None? then None
            else Some(ReadLines(read, lines).value + [read(line).value])
  {
    assert (lines + [line])[..|lines|] == lines;
  }

  lemma {:induction false} UnreadLine(read: Reading, lines: seq<string>, i: nat)
    requires i < |lines| && read(lines[i]).None?
    ensures ReadLines(read, lines).None?
    decreases |lines|
  {
    var n := |lines| - 1;
    if i < n {
      UnreadLine(read, lines[..n], i);
    }
  }

  ghost predicate IsReading(read: Reading)
  {
    forall l {:trigger ReadLine(l)} :: read(l) == ReadLine(l)
  }

  /** Fields of one line in `onControlRead`; `ok` is false where it indexes past their end. */
  method NameAndStatus(ghost read: Reading, p: string) returns (ok: bool, name: string, status: int)
    requires IsReading(read)
    ensures ok <==> read(p).Some?
    ensures ok ==> name == read(p).value.name && status == read(p).value.status
  {
    assert read(p) == ReadLine(p);
    var tmp := SplitLoop(p, ",", true);
    if |tmp| < 3 {
      return false, "", 0;
    }
    name := tmp[0];
    status := ReadInt(tmp[2]);
    ok := true;
  }

  /** Fields of one line in `onDataRead`. */
  method NameIdAndStatus(ghost read: Reading, p: string) returns (e: Option<Entry>)
    requires IsReading(read)
    ensures e == read(p)
  {
    assert read(p) == ReadLine(p);
    var tmp := SplitLoop(p, ",", true);
    if |tmp| < 3 {
      return None;
    }
    var id := ReadInt(tmp[1]);
    var status := ReadInt(tmp[2]);
    return Some(Entry(tmp[0], id, status));
  }

  /** The loop of `onControlRead`; `read` only names the specification of one line. */
  method ListNames(ghost read: Reading, lines: seq<string>, user: string) returns (ok: bool, listName: seq<string>)
    requires IsReading(read)
    ensures ok <==> ReadLines(read, lines).Some?
    ensures ok ==> listName == Names(Accepted(user, ReadLines(read, lines).value))
  {
    listName := [];
    ghost var seen: seq<Entry> := [];
    var i := 0;
    while i < |lines|
      invariant 0 <= i <= |lines|
      invariant ReadLines(read, lines[..i]) == Some(seen)
      invariant listName == Names(Accepted(user, seen))
    {
      var hasFields, name, status := NameAndStatus(read, lines[i]);
      if !hasFields {
        UnreadLine(read, lines, i);
        return false, [];
      }
      ghost var e := read(lines[i]);
      assert lines[..i + 1] == lines[..i] + [lines[i]];
      ReadLinesSnoc(read, lines[..i], lines[i]);
      AcceptedSnoc(user, seen, e.value);
      NamesSnoc(Accepted(user, seen), e.value);
      seen := seen + [e.value];
      if name != user && status != 0 {
        listName := listName + [name];
      }
      i := i + 1;
    }
    assert lines[..i] == lines;
    ok := true;
  }

  /** The loop of `onDataRead`: the same list, and each accepted id written into the index. */
  method ListPeers(ghost read: Reading, lines: seq<string>, user: string, index: map<string, int>)
    returns (ok: bool, peers: map<string, int>, listName: seq<string>)
    requires IsReading(read)
    ensures ok <==> ReadLines(read, lines).Some?
    ensures ok ==> listName == Names(Accepted(user, ReadLines(read, lines).value))
    ensures ok ==> peers == Store(index, Accepted(user, ReadLines(read, lines).value))
  {
    listName := [];
    peers := index;
    ghost var seen: seq<Entry> := [];
    var i := 0;
    while i < |lines|
      invariant 0 <= i <= |lines|
      invariant ReadLines(read, lines[..i]) == Some(seen)
      invariant listName == Names(Accepted(user, seen))
      invariant peers == Store(index, Accepted(user, seen))
    {
      var e := NameIdAndStatus(read, lines[i]);
      if e.None? {
        UnreadLine(read, lines, i);
        return false, map[], [];
      }
      var name, id, status := e.value.name, e.value.id, e.value.status;
      assert lines[..i + 1] == lines[..i] + [lines[i]];
      ReadLinesSnoc(read, lines[..i], lines[i]);
      AcceptedSnoc(user, seen, e.value);
      NamesSnoc(Accepted(user, seen), e.value);
      StoreSnoc(index, Accepted(user, seen), e.value);
      seen := seen + [e.value];
      if name != user && status != 0 {
        peers := peers[name := id];
        listName := listName + [name];
      }
      i := i + 1;
    }
    assert lines[..i] == lines;
    ok := true;
  }
}
