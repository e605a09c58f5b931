/** The test doubles of lib/mixminion/testSupport.py: the stack of
    temporarily replaced attributes with its call-logging stub functions,
    and the DirectoryStoreModule delivery module that writes each message
    to the next numbered file of a directory. */
module TestDoubles {
  import opened Common

  // ---------------------------------------------------------------------
  // Replaced attributes

  /** A Python value as far as this code cares: None, some object it does
      not look into, or a _ReplacementFunc stub (fn names the delegate). */
  datatype Value =
    | PyNone
    | Opaque(id: nat)
    | Stub(name: string, fn: Option<nat>)

  /** object.attribute */
  datatype Slot = Slot(obj: nat, attr: string)

  /** An entry of _REPLACED_OBJECT_STACK: the old value, or the fact that
      the attribute did not exist. */
  datatype Saved = Had(slot: Slot, previous: Value) | Lacked(slot: Slot)

  /** An entry of _CALL_LOG: (function name, args, kwargs). */
  datatype CallRecord = CallRecord(name: string, args: seq<Value>, kwargs: map<string, Value>)

  /** What replaceAttribute saves before overwriting 'slot'. */
  function SavedFor(attrs: map<Slot, Value>, slot: Slot): (s: Saved)
    ensures s.slot == slot
    ensures s.Had? <==> slot in attrs
    ensures s.Had? ==> s.previous == attrs[slot]
  {
    if slot in attrs then Had(slot, attrs[slot]) else Lacked(slot)
  }

  /** One replaceAttribute on the attribute state and the stack. */
  function ReplaceStep(attrs: map<Slot, Value>, stack: seq<Saved>, slot: Slot, v: Value)
    : (r: (map<Slot, Value>, seq<Saved>))
    ensures r.0 == attrs[slot := v]
    ensures r.1 == stack + [SavedFor(attrs, slot)]
  {
    (attrs[slot := v], stack + [SavedFor(attrs, slot)])
  }

  /** A run of replaceAttribute calls from the given state. */
  function Replay(attrs: map<Slot, Value>, stack: seq<Saved>, ops: seq<(Slot, Value)>)
    : (r: (map<Slot, Value>, seq<Saved>))
    ensures |r.1| == |stack| + |ops|
  {
    if ops == [] then (attrs, stack)
    else
      var prev := Replay(attrs, stack, ops[..|ops| - 1]);
      ReplaceStep(prev.0, prev.1, ops[|ops| - 1].0, ops[|ops| - 1].1)
  }

  /** The restoring loop of undoReplacedAttributes over the reversed stack:
      setattr for a saved value, delattr for an attribute that was absent.
      A delattr of an attribute that is missing raises AttributeError, which
      ends the loop (false). */
  function Restore(attrs: map<Slot, Value>, items: seq<Saved>): (r: (map<Slot, Value>, bool))
    ensures items == [] ==> r == (attrs, true)
    decreases |items|
  {
    if items == [] then (attrs, true)
    else
      match items[0]
      case Had(slot, v) => Restore(attrs[slot := v], items[1..])
      case Lacked(slot) =>
        if slot in attrs then Restore(attrs - {slot}, items[1..]) else (attrs, false)
  }

  /** Undoing restores exactly the attributes that were in place before any
      run of replaceAttribute/replaceFunction calls, however often the same
      attribute was replaced, and raises nothing. */
  lemma {:induction false} UndoRestores(attrs: map<Slot, Value>, ops: seq<(Slot, Value)>)
    ensures Restore(Replay(attrs, [], ops).0, Reversed(Replay(attrs, [], ops).1)) == (attrs, true)
  {
    if ops != [] {
      var prev := Replay(attrs, [], ops[..|ops| - 1]);
      var slot, v := ops[|ops| - 1].0, ops[|ops| - 1].1;
      var saved := SavedFor(prev.0, slot);
      ReversedAppend(prev.1, saved);
      var items := [saved] + Reversed(prev.1);
      assert items[1..] == Reversed(prev.1);
      if saved.Had? {
        assert prev.0[slot := v][slot := saved.previous] == prev.0;
      } else {
        assert prev.0[slot := v] - {slot} == prev.0;
      }
      UndoRestores(attrs, ops[..|ops| - 1]);
    }
  }

  /** The two module-level lists, _REPLACED_OBJECT_STACK and _CALL_LOG,
      together with the attribute state of the objects they touch. */
  class Replacements {
    var attrs: map<Slot, Value>
    var stack: seq<Saved>
    var callLog: seq<CallRecord>

    constructor (attrs0: map<Slot, Value>)
      ensures attrs == attrs0 && stack == [] && callLog == []
    {
      attrs := attrs0;
      stack := [];
      callLog := [];
    }

    /** replaceAttribute(o, a, v): remember the old value (or its absence),
        then set the attribute. */
    method ReplaceAttribute(o: nat, a: string, v: Value)
      modifies this
      ensures (attrs, stack) == ReplaceStep(old(attrs), old(stack), Slot(o, a), v)
      ensures callLog == old(callLog)
    {
      var slot := Slot(o, a);
      var tup := if slot in attrs then Had(slot, attrs[slot]) else Lacked(slot);
      stack := stack + [tup];
      attrs := attrs[slot := v];
    }

    /** replaceFunction(o, a, fn): install a logging stub named after the
        attribute. */
    method ReplaceFunction(o: nat, a: string, fn: Option<nat>)
      modifies this
      ensures (attrs, stack) == ReplaceStep(old(attrs), old(stack), Slot(o, a), Stub(a, fn))
      ensures callLog == old(callLog)
    {
      ReplaceAttribute(o, a, Stub(a, fn));
    }

    /** Calling a stub: log the call, then delegate to fn if there is one
        (its behaviour is the parameter 'apply'), else return None. */
    method CallStub(stub: Value, args: seq<Value>, kwargs: map<string, Value>,
                    apply: (nat, seq<Value>, map<string, Value>) -> Value)
      returns (r: Value)
      requires stub.Stub?
      modifies this
      ensures callLog == old(callLog) + [CallRecord(stub.name, args, kwargs)]
      ensures attrs == old(attrs) && stack == old(stack)
      ensures stub.fn.Some? ==> r == apply(stub.fn.value, args, kwargs)
      ensures stub.fn.None? ==> r == PyNone
    {
      callLog := callLog + [CallRecord(stub.name, args, kwargs)];
      if stub.fn.Some? {
        r := apply(stub.fn.value, args, kwargs);
      } else {
        r := PyNone;
      }
    }

    /** clearReplacedFunctionCallLog() */
    method ClearCallLog()
      modifies this
      ensures callLog == [] && attrs == old(attrs) && stack == old(stack)
    {
      callLog := [];
    }

    /** undoReplacedAttributes(): empty the stack, then walk a reversed copy
        of it restoring each attribute.  ok is false when a delattr raised
        AttributeError, which leaves the later entries unrestored. */
    method UndoReplacedAttributes() returns (ok: bool)
      modifies this
      ensures (attrs, ok) == Restore(old(attrs), Reversed(old(stack)))
      ensures stack == [] && callLog == old(callLog)
    {
      var r := Reversed(stack);
      stack := [];
      var i := 0;
      ok := true;
      while i < |r|
        invariant 0 <= i <= |r|
        invariant Restore(old(attrs), r) == Restore(attrs, r[i..])
        invariant stack == [] && callLog == old(callLog)
        decreases |r| - i
      {
        assert r[i..][1..] == r[i + 1..];
        var item := r[i];
        if item.Had? {
          attrs := attrs[item.slot := item.previous];
        } else {
          if item.slot !in attrs {
            ok := false;
            return;
          }
          attrs := attrs - {item.slot};
        }
        i := i + 1;
      }
    }
  }

  // ---------------------------------------------------------------------
  // DirectoryStoreModule

  /** The delivery outcomes a module returns. */
  datatype DeliveryResult = DeliverOk | DeliverFailRetry | DeliverFailNoRetry

  /** The exit type this module handles. */
  const DIRECTORY_DUMP_TYPE: int := 0xFFFE

  /** max([d] + s) */
  function MaxOr(d: int, s: seq<int>): (m: int)
    ensures m >= d
    ensures forall k :: 0 <= k < |s| ==> s[k] <= m
    ensures m == d || m in s
  {
    if s == [] then d
    else
      var rest := MaxOr(d, s[1..]);
      if s[0] > rest then s[0] else rest
  }

  /** A delivery module that writes every message to a fresh numbered file
      of its directory.  'names' are the numbers of the files there,
      'written' the text of those this module wrote. */
  class DirectoryStoreModule {
    var loc: string
    var next: int
    var names: set<int>
    var written: map<int, string>

    /** New files always take a number above every existing one. */
    ghost predicate Valid()
      reads this
    {
      (forall k :: k in names ==> k < next) && written.Keys <= names
    }

    constructor ()
      ensures Valid() && loc == "" && names == {} && written == map[]
    {
      loc := "";
      next := 0;
      names := {};
      written := map[];
    }

    /** configure: with no Location nothing else happens; otherwise the
        next number is one more than the largest existing file number
        (the directory listing is 'listing', every name a number). */
    method Configure(location: string, listing: seq<int>)
      modifies this
      ensures loc == location
      ensures location == "" ==> next == old(next) && names == old(names) && written == old(written)
      ensures location != "" ==> names == set k | k in listing && written == map[]
      ensures location != "" ==> next >= 0 && (forall k :: k in listing ==> k < next)
      ensures location != "" ==> next == 0 || next - 1 in listing
      ensures old(Valid()) ==> Valid()
      ensures location != "" ==> Valid()
    {
      loc := location;
      if location == "" {
        return;
      }
      next := 1 + MaxOr(-1, listing);
      names := set k | k in listing;
      written := map[];
    }

    /** processMessage: 'fail' asks for a retry, 'FAIL!' refuses for good;
        anything else is written to file number 'next' ('text' is the
        escaped message, or the undecodable-message report). */
    method ProcessMessage(exitType: int, exitInfo: string, text: string) returns (res: DeliveryResult)
      requires exitType == DIRECTORY_DUMP_TYPE
      requires Valid()
      modifies this
      ensures Valid() && loc == old(loc)
      ensures exitInfo == "fail" ==> res == DeliverFailRetry
      ensures exitInfo == "FAIL!" ==> res == DeliverFailNoRetry
      ensures exitInfo == "fail" || exitInfo == "FAIL!" ==>
                next == old(next) && names == old(names) && written == old(written)
      ensures exitInfo != "fail" && exitInfo != "FAIL!" ==>
                res == DeliverOk &&
                old(next) !in old(names) &&          // no existing file is overwritten
                names == old(names) + {old(next)} &&
                written == old(written)[old(next) := text] &&
                next == old(next) + 1
    {
      if exitInfo == "fail" {
        return DeliverFailRetry;
      } else if exitInfo == "FAIL!" {
        return DeliverFailNoRetry;
      }
      names := names + {next};
      written := written[next := text];
      next := next + 1;
      res := DeliverOk;
    }
  }
}
