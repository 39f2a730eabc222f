/**
 * Colour marks and the map that stores them.
 *
 * Vertices go white (unvisited), gray (discovered, edges still being
 * examined), black (finished). Edges of the undirected walk use white
 * (unused) and black (examined). A vertex colour map reads white for a key it
 * has never stored.
 */
module Colors {
  import opened Graphs

  datatype Color = White | Gray | Black

  /** The order in which colours are allowed to move. */
  function Rank(c: Color): nat
  {
    match c
    case White => 0
    case Gray => 1
    case Black => 2
  }

  /** Lookup in a map that is not allowed to change: the stored value, or `default`. */
  function Get<K, V>(m: map<K, V>, key: K, default: V): V
  {
    if key in m then m[key] else default
  }

  /** The map the mutable lookup leaves behind: `default` stored under a missing key. */
  function WithDefault<K, V>(m: map<K, V>, key: K, default: V): map<K, V>
  {
    if key in m then m else m[key := default]
  }

  /**
   * Storing the default under a missing key is invisible to every later
   * lookup with that default, and the inserting lookup returns what the
   * non-inserting one returns.
   */
  lemma DefaultInsertInvisible<K, V>(m: map<K, V>, key: K, default: V)
    ensures forall k :: Get(WithDefault(m, key, default), k, default) == Get(m, k, default)
    ensures key in WithDefault(m, key, default)
    ensures WithDefault(m, key, default)[key] == Get(m, key, default)
    ensures m.Keys <= WithDefault(m, key, default).Keys
  {
  }

  /** The vertex colour map of the walks: a map whose missing keys read as white. */
  class ColorMap {
    var entries: map<Vertex, Color>

    /** The colour of `v` as the walks see it. */
    ghost function At(v: Vertex): Color
      reads this
    {
      Get(entries, v, White)
    }

    constructor ()
      ensures entries == map[]
      ensures forall v :: At(v) == White
    {
      entries := map[];
    }

    /**
     * `operator[]`: returns the colour of `key`, storing white first when the
     * key has never been stored. The colour every key reads is unchanged.
     */
    method Lookup(key: Vertex) returns (c: Color)
      modifies this
      ensures c == old(At(key))
      ensures entries == WithDefault(old(entries), key, White)
      ensures forall v :: At(v) == old(At(v))
    {
      DefaultInsertInvisible(entries, key, White);
      if key in entries {
        c := entries[key];
      } else {
        entries := entries[key := White];
        c := White;
      }
    }

    /** `put`: stores colour `c` for `key`. */
    method Put(key: Vertex, c: Color)
      modifies this
      ensures entries == old(entries)[key := c]
      ensures At(key) == c && forall v :: v != key ==> At(v) == old(At(v))
    {
      entries := entries[key := c];
    }
  }
}
