/**
 * The value side of the chat page: messages, chat sessions, and the pure
 * list transformations that the page's state updaters apply to the session
 * list (`map` replacing the matching session, `filter` for deletion,
 * `find` for the active-session lookup, `slice(0, -1)` for rollback).
 * Every transformation is keyed by session id.
 */
module Session {

  datatype Option<T> = None | Some(value: T)

  datatype Role = User | Model

  datatype Message = Message(role: Role, content: string)

  /** One uploaded document and its conversation. The browser `File` is kept
      only by its name; the data URI is an opaque string. */
  datatype ChatSession = ChatSession(id: string, fileName: string, pdfDataUri: string, chatHistory: seq<Message>)

  /** The two ways a history is edited: appending a turn, or `slice(0, -1)`. */
  datatype HistoryEdit = Append(msg: Message) | DropLast

  predicate HasId(ss: seq<ChatSession>, id: string) {
    exists i :: 0 <= i < |ss| && ss[i].id == id
  }

  predicate UniqueIds(ss: seq<ChatSession>) {
    forall i, j :: 0 <= i < j < |ss| ==> ss[i].id != ss[j].id
  }

  /** `h.slice(0, -1)` drops the last element and leaves an empty array empty;
      appending keeps every earlier turn in place. */
  function ApplyEdit(e: HistoryEdit, h: seq<Message>): (r: seq<Message>)
    ensures e.Append? ==> |r| == |h| + 1 && r[..|h|] == h && r[|h|] == e.msg
    ensures e.DropLast? && h == [] ==> r == []
    ensures e.DropLast? && h != [] ==> r + [h[|h| - 1]] == h
  {
    match e
    case Append(m) => h + [m]
    case DropLast => if |h| == 0 then [] else h[..|h| - 1]
  }

  /** `sessions.map(s => s.id === id ? { ...s, chatHistory: edit(s.chatHistory) } : s)` */
  function UpdateHistory(ss: seq<ChatSession>, id: string, e: HistoryEdit): (r: seq<ChatSession>)
    ensures |r| == |ss|
    ensures forall i :: 0 <= i < |ss| ==>
      r[i] == if ss[i].id == id then ss[i].(chatHistory := ApplyEdit(e, ss[i].chatHistory)) else ss[i]
  {
    if ss == [] then []
    else
      var s := ss[0];
      var s' := if s.id == id then s.(chatHistory := ApplyEdit(e, s.chatHistory)) else s;
      [s'] + UpdateHistory(ss[1..], id, e)
  }

  /** `sessions.filter(s => s.id !== id)` */
  function RemoveSession(ss: seq<ChatSession>, id: string): (r: seq<ChatSession>)
    ensures |r| <= |ss|
    ensures forall i :: 0 <= i < |r| ==> r[i].id != id
    ensures |r| == |ss| ==> r == ss
  {
    if ss == [] then []
    else (if ss[0].id == id then [] else [ss[0]]) + RemoveSession(ss[1..], id)
  }

  /** The filter keeps exactly the sessions carrying another id. */
  lemma {:induction false} RemoveMembers(ss: seq<ChatSession>, id: string)
    ensures forall s :: s in RemoveSession(ss, id) <==> s in ss && s.id != id
  {
    if ss != [] {
      RemoveMembers(ss[1..], id);
      assert forall s :: s in ss <==> s == ss[0] || s in ss[1..];
    }
  }

  /** `sessions.find(s => s.id === id)`: a session carrying the id, when
      there is one (the first such, see FindFirst). */
  function FindSession(ss: seq<ChatSession>, id: string): (r: Option<ChatSession>)
    ensures r.None? <==> !HasId(ss, id)
    ensures r.Some? ==> r.value.id == id && r.value in ss
  {
    if ss == [] then None
    else if ss[0].id == id then Some(ss[0])
    else FindSession(ss[1..], id)
  }

  /** The lookup returns the first session carrying the id: no session
      before it carries the id. */
  lemma {:induction false} FindFirst(ss: seq<ChatSession>, id: string, k: nat)
    requires k < |ss| && ss[k].id == id
    requires forall j :: 0 <= j < k ==> ss[j].id != id
    ensures FindSession(ss, id) == Some(ss[k])
  {
    if k > 0 {
      FindFirst(ss[1..], id, k - 1);
    }
  }

  /** A session whose id is no longer present is never edited or resurrected. */
  lemma {:induction false} UpdateAbsent(ss: seq<ChatSession>, id: string, e: HistoryEdit)
    requires !HasId(ss, id)
    ensures UpdateHistory(ss, id, e) == ss
  {
    var r := UpdateHistory(ss, id, e);
    assert forall i :: 0 <= i < |ss| ==> r[i] == ss[i];
  }

  /** Rollback is exact: dropping the last turn after appending one restores
      every session, whichever sessions carry the id. */
  lemma {:induction false} RollBackRestores(ss: seq<ChatSession>, id: string, m: Message)
    ensures UpdateHistory(UpdateHistory(ss, id, Append(m)), id, DropLast) == ss
  {
    var mid := UpdateHistory(ss, id, Append(m));
    var r := UpdateHistory(mid, id, DropLast);
    forall i | 0 <= i < |ss|
      ensures r[i] == ss[i]
    {
      if ss[i].id == id {
        var h := ss[i].chatHistory;
        assert mid[i].chatHistory == h + [m];
        assert (h + [m])[..|h|] == h;
      }
    }
  }

  /** Editing the session list leaves the set of ids, and their uniqueness, alone. */
  lemma UpdateKeepsIds(ss: seq<ChatSession>, id: string, sid: string, e: HistoryEdit)
    ensures HasId(UpdateHistory(ss, id, e), sid) <==> HasId(ss, sid)
    ensures UniqueIds(UpdateHistory(ss, id, e)) <==> UniqueIds(ss)
  {
    var r := UpdateHistory(ss, id, e);
    forall i | 0 <= i < |ss| ensures r[i].id == ss[i].id {
    }
    SameIds(r, ss, sid);
  }

  /** Two lists carrying the same ids position by position agree on which
      ids are present and on whether they are unique. */
  lemma SameIds(a: seq<ChatSession>, b: seq<ChatSession>, sid: string)
    requires |a| == |b|
    requires forall i :: 0 <= i < |a| ==> a[i].id == b[i].id
    ensures HasId(a, sid) <==> HasId(b, sid)
    ensures UniqueIds(a) <==> UniqueIds(b)
  {
    if HasId(a, sid) {
      var i :| 0 <= i < |a| && a[i].id == sid;
      assert b[i].id == sid;
    }
    if HasId(b, sid) {
      var i :| 0 <= i < |b| && b[i].id == sid;
      assert a[i].id == sid;
    }
    if !UniqueIds(a) {
      var i, j :| 0 <= i < j < |a| && a[i].id == a[j].id;
      assert b[i].id == b[j].id;
    }
    if !UniqueIds(b) {
      var i, j :| 0 <= i < j < |b| && b[i].id == b[j].id;
      assert a[i].id == a[j].id;
    }
  }

  /** Adding a session under a new id: it is found under that id, every
      other id keeps its presence, and ids stay unique. */
  lemma AppendFresh(ss: seq<ChatSession>, s: ChatSession, sid: string)
    requires !HasId(ss, s.id)
    ensures FindSession(ss + [s], s.id) == Some(s)
    ensures HasId(ss + [s], sid) <==> HasId(ss, sid) || sid == s.id
    ensures UniqueIds(ss) ==> UniqueIds(ss + [s])
  {
    var r := ss + [s];
    assert r[|ss|] == s;
    assert forall i :: 0 <= i < |ss| ==> r[i] == ss[i];
    FindFirst(r, s.id, |ss|);
  }

  /** Looking a session up after an edit finds the same session, edited when
      the edit was aimed at it. */
  lemma {:induction false} FindAfterUpdate(ss: seq<ChatSession>, id: string, target: string, e: HistoryEdit)
    ensures FindSession(UpdateHistory(ss, target, e), id) ==
      match FindSession(ss, id)
      case None => None
      case Some(s) => Some(if s.id == target then s.(chatHistory := ApplyEdit(e, s.chatHistory)) else s)
  {
    if ss != [] {
      FindAfterUpdate(ss[1..], id, target, e);
      assert UpdateHistory(ss, target, e)[1..] == UpdateHistory(ss[1..], target, e);
    }
  }

  /** Under unique ids the lookup returns THE session carrying the id. */
  lemma {:induction false} FindUnique(ss: seq<ChatSession>, i: nat)
    requires UniqueIds(ss) && i < |ss|
    ensures FindSession(ss, ss[i].id) == Some(ss[i])
  {
    if i > 0 {
      assert ss[0].id != ss[i].id;
      FindUnique(ss[1..], i - 1);
    }
  }

  /** Filtering distributes over concatenation, so it keeps the order of the survivors. */
  lemma {:induction false} RemoveAppend(a: seq<ChatSession>, b: seq<ChatSession>, id: string)
    ensures RemoveSession(a + b, id) == RemoveSession(a, id) + RemoveSession(b, id)
  {
    if a == [] {
      assert a + b == b;
    } else {
      var head := if a[0].id == id then [] else [a[0]];
      var ab := a + b;
      assert ab[0] == a[0];
      assert ab[1..] == a[1..] + b;
      RemoveAppend(a[1..], b, id);
      Associate(head, RemoveSession(a[1..], id), RemoveSession(b, id));
    }
  }

  lemma Associate(x: seq<ChatSession>, y: seq<ChatSession>, z: seq<ChatSession>)
    ensures x + (y + z) == (x + y) + z
  {
  }

  /** Deleting an id nobody carries leaves the list as it was. */
  lemma {:induction false} RemoveAbsent(ss: seq<ChatSession>, id: string)
    requires !HasId(ss, id)
    ensures RemoveSession(ss, id) == ss
  {
    if ss != [] {
      assert ss[0].id != id;
      assert !HasId(ss[1..], id) by {
        forall i | 0 <= i < |ss[1..]| ensures ss[1..][i].id != id { assert ss[1..][i] == ss[i + 1]; }
      }
      RemoveAbsent(ss[1..], id);
    }
  }

  /** With unique ids, deleting a session removes exactly that one session and
      keeps the others in their order. */
  lemma RemoveExactlyOne(ss: seq<ChatSession>, k: nat)
    requires UniqueIds(ss) && k < |ss|
    ensures RemoveSession(ss, ss[k].id) == ss[..k] + ss[k + 1..]
  {
    var id := ss[k].id;
    var pre, post := ss[..k], ss[k + 1..];
    var tail := [ss[k]] + post;
    OthersLackId(ss, k);
    SplitAt(ss, k);
    RemoveAppend(pre, tail, id);
    RemoveAbsent(pre, id);
    assert tail[0] == ss[k] && tail[1..] == post;
    RemoveAbsent(post, id);
    assert RemoveSession(tail, id) == post;
  }

  lemma SplitAt(ss: seq<ChatSession>, k: nat)
    requires k < |ss|
    ensures ss == ss[..k] + ([ss[k]] + ss[k + 1..])
  {
  }

  lemma OthersLackId(ss: seq<ChatSession>, k: nat)
    requires UniqueIds(ss) && k < |ss|
    ensures !HasId(ss[..k], ss[k].id) && !HasId(ss[k + 1..], ss[k].id)
  {
    var id := ss[k].id;
    forall i | 0 <= i < k ensures ss[..k][i].id != id { assert ss[..k][i] == ss[i]; }
    var post := ss[k + 1..];
    forall i | 0 <= i < |post| ensures post[i].id != id { assert post[i] == ss[k + 1 + i]; }
  }

  /** Deletion never introduces a duplicate id. */
  lemma {:induction false} RemoveKeepsUnique(ss: seq<ChatSession>, id: string)
    requires UniqueIds(ss)
    ensures UniqueIds(RemoveSession(ss, id))
  {
    if ss != [] {
      var rest := RemoveSession(ss[1..], id);
      assert UniqueIds(ss[1..]) by {
        forall i, j | 0 <= i < j < |ss[1..]| ensures ss[1..][i].id != ss[1..][j].id {
          assert ss[1..][i] == ss[i + 1] && ss[1..][j] == ss[j + 1];
        }
      }
      RemoveKeepsUnique(ss[1..], id);
      if ss[0].id != id {
        RemoveMembers(ss[1..], id);
        forall k | 0 <= k < |rest| ensures rest[k].id != ss[0].id {
          assert rest[k] in ss[1..];
          var j :| 0 <= j < |ss[1..]| && ss[1..][j] == rest[k];
          assert ss[j + 1] == rest[k];
        }
        var r := [ss[0]] + rest;
        forall i, j | 0 <= i < j < |r| ensures r[i].id != r[j].id {
          if i == 0 { assert r[j] == rest[j - 1]; }
          else { assert r[i] == rest[i - 1] && r[j] == rest[j - 1]; }
        }
      }
    }
  }
}
