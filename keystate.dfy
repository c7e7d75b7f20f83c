/**
 * The host keyboard event and the pressed-key state that every tracker and
 * matcher shares.
 */
module KeyState {
  import opened Wrappers

  /**
   * A `web_sys::KeyboardEvent` as far as the engine looks at it: its `key()`
   * and `code()` strings, and an identity (`handle`) that tells two events
   * apart when the engine calls `prevent_default` on one of them.
   */
  datatype KeyboardEvent = KeyboardEvent(handle: nat, key: string, code: string)

  /** Sequences of events, as `prevent_default` sees them, regroup freely. */
  lemma ConcatAssociates(a: seq<KeyboardEvent>, b: seq<KeyboardEvent>, c: seq<KeyboardEvent>)
    ensures a + (b + c) == (a + b) + c
  {
  }

  /**
   * `KeyPresses { key_map, last_key }`: the held keys by normalised id, and
   * the id of the most recent keydown while that key is still held.
   */
  datatype KeyPresses = KeyPresses(keyMap: map<string, KeyboardEvent>, lastKey: Option<string>)

  /** The last key, when there is one, is still held. */
  predicate Valid(p: KeyPresses) {
    p.lastKey.Some? ==> p.lastKey.value in p.keyMap
  }

  function NoPresses(): (p: KeyPresses)
    ensures Valid(p) && p.keyMap == map[] && p.lastKey == None
  {
    KeyPresses(map[], None)
  }

  /** `insert(id, event)`: the id now maps to the event, every other entry unchanged. */
  function Insert(m: map<string, KeyboardEvent>, id: string, ev: KeyboardEvent): (r: map<string, KeyboardEvent>)
    ensures r.Keys == m.Keys + {id} && r[id] == ev
    ensures forall k :: k in m && k != id ==> k in r && r[k] == m[k]
  {
    m[id := ev]
  }

  /** `remove(id)`: the id is gone, every other entry unchanged. */
  function Remove(m: map<string, KeyboardEvent>, id: string): (r: map<string, KeyboardEvent>)
    ensures r.Keys == m.Keys - {id}
    ensures forall k :: k in r ==> r[k] == m[k]
  {
    m - {id}
  }

  /** Removing an id that is not held changes nothing. */
  lemma RemoveAbsent(m: map<string, KeyboardEvent>, id: string)
    requires id !in m
    ensures Remove(m, id) == m
  {
  }

  /** Releasing right after pressing restores the map, when the id was not already held. */
  lemma InsertThenRemove(m: map<string, KeyboardEvent>, id: string, ev: KeyboardEvent)
    requires id !in m
    ensures Remove(Insert(m, id, ev), id) == m
  {
  }

  /**
   * A keydown: the id is held with its event and becomes the last key.
   */
  function Press(p: KeyPresses, id: string, ev: KeyboardEvent): (r: KeyPresses)
    ensures Valid(r)
    ensures r.keyMap == Insert(p.keyMap, id, ev) && r.lastKey == Some(id)
  {
    KeyPresses(Insert(p.keyMap, id, ev), Some(id))
  }

  /**
   * A keyup: the id is released; the last key is cleared when it is the id
   * released and kept otherwise.
   */
  function Release(p: KeyPresses, id: string): (r: KeyPresses)
    ensures Valid(p) ==> Valid(r)
    ensures r.keyMap == Remove(p.keyMap, id)
    ensures r.lastKey == (if p.lastKey == Some(id) then None else p.lastKey)
  {
    KeyPresses(Remove(p.keyMap, id), if p.lastKey == Some(id) then None else p.lastKey)
  }

  /**
   * What a tracker and its bindings react to: the document's keydown and
   * keyup events, the window's blur event, and the scope callbacks.
   */
  datatype Input =
    | KeyDown(ev: KeyboardEvent)
    | KeyUp(ev: KeyboardEvent)
    | WindowBlur
    | EnableScope(scope: string)
    | DisableScope(scope: string)
    | ToggleScope(scope: string)

  predicate IsScopeInput(input: Input) {
    input.EnableScope? || input.DisableScope? || input.ToggleScope?
  }
}
