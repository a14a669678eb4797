/**
 * The read-only record proxy of a collection: a document's data together
 * with its primary key.  Equality, hashing and `int()` see the primary key
 * only; dict-style access delegates to the data; the first attribute
 * access copies every top-level key that does not start with `_` into the
 * instance's attributes.
 */
module Documents {
  import opened Outcomes
  import opened Values

  /** A dict never holds a key twice. */
  predicate UniqueKeys(doc: Doc)
  {
    forall i, j :: 0 <= i < j < |doc| ==> doc[i].key != doc[j].key
  }

  /** `hash(n)` of a machine integer: itself, except that -1 hashes to -2. */
  function IntHash(n: int): (r: int)
    ensures n != -1 ==> r == n
    ensures r != -1
  {
    if n == -1 then -2 else n
  }

  /** `not key[0] == '_'` for a non-empty key. */
  predicate Public(key: string)
    requires key != ""
  {
    key[0] != '_'
  }

  /** The attributes after `setattr(self, key, val)` for each entry in turn that `Public` admits. */
  function CopyAttrs(attrs: map<string, Value>, entries: seq<Entry>): map<string, Value>
    requires forall i :: 0 <= i < |entries| ==> entries[i].key != ""
    decreases |entries|
  {
    if |entries| == 0 then attrs
    else
      var n := |entries| - 1;
      CopyEntry(CopyAttrs(attrs, entries[..n]), entries[n])
  }

  /** `setattr(self, key, val)` for a public key; a private one is skipped. */
  function CopyEntry(attrs: map<string, Value>, e: Entry): map<string, Value>
    requires e.key != ""
  {
    if Public(e.key) then attrs[e.key := e.val] else attrs
  }

  /** Every attribute is a public key of the data, holding its value. */
  predicate Copied(data: Doc, attrs: map<string, Value>)
  {
    forall k :: k in attrs ==> k != "" && Public(k) && HasKey(data, k) && attrs[k] == Get(data, k)
  }

  /** Position of the first entry whose key is empty (`key[0]` raises there), or the length. */
  function FirstEmptyKey(entries: seq<Entry>): (r: nat)
    ensures r <= |entries|
    ensures forall i :: 0 <= i < r ==> entries[i].key != ""
    ensures r < |entries| ==> entries[r].key == ""
  {
    if |entries| == 0 then 0
    else if entries[0].key == "" then 0
    else 1 + FirstEmptyKey(entries[1..])
  }

  /** The copy sets exactly the public keys of the entries, on top of the attributes already there. */
  lemma {:induction false} CopyAttrsKeys(attrs: map<string, Value>, entries: seq<Entry>, k: string)
    requires forall i :: 0 <= i < |entries| ==> entries[i].key != ""
    ensures k in CopyAttrs(attrs, entries) <==> k in attrs || exists i :: 0 <= i < |entries| && entries[i].key == k && Public(k)
    decreases |entries|
  {
    if |entries| > 0 {
      var n := |entries| - 1;
      var front := entries[..n];
      CopyAttrsKeys(attrs, front, k);
      if exists i :: 0 <= i < |entries| && entries[i].key == k && Public(k) {
        var i :| 0 <= i < |entries| && entries[i].key == k && Public(k);
        if i < n {
          assert front[i].key == k;
        }
      }
      if exists i :: 0 <= i < n && front[i].key == k && Public(k) {
        var i :| 0 <= i < n && front[i].key == k && Public(k);
        assert entries[i].key == k;
      }
    }
  }

  /** In a dict, `get` returns the value of the one entry with the key. */
  lemma {:induction false} GetUnique(doc: Doc, i: nat)
    requires UniqueKeys(doc) && i < |doc|
    ensures Get(doc, doc[i].key) == doc[i].val
    decreases i
  {
    if i > 0 {
      assert doc[0].key != doc[i].key;
      var rest := doc[1..];
      assert rest[i - 1] == doc[i];
      GetUnique(rest, i - 1);
    }
  }

  class Document {
    const pk: int
    const data: Doc
    /** `_attrs_assigned`. */
    var attrsAssigned: bool
    /** The instance attributes set from the data. */
    var attrs: map<string, Value>

    /** Every copied attribute is a public key of the data, holding its value. */
    ghost predicate Valid()
      reads this
    {
      && UniqueKeys(data)
      && Copied(data, attrs)
    }

    /** `Document(pk, data)`; the pk must be an integer, which the type states. */
    constructor (pk: int, data: Doc)
      requires UniqueKeys(data)
      ensures Valid()
      ensures this.pk == pk && this.data == data
      ensures !attrsAssigned && attrs == map[]
    {
      this.pk := pk;
      this.data := data;
      attrsAssigned := false;
      attrs := map[];
    }

    /** `get(k, v)`: the value under `k`, or `v` when the key is absent. */
    function GetOr(k: string, v: Value): (r: Value)
      ensures !HasKey(data, k) ==> r == v
      ensures HasKey(data, k) ==> exists i :: 0 <= i < |data| && data[i].key == k && data[i].val == r
    {
      if HasKey(data, k) then
        assert exists i :: 0 <= i < |data| && data[i].key == k && data[i].val == Get(data, k) by {
          var i :| 0 <= i < |data| && data[i].key == k;
          FirstGet(data, k, i);
        }
        Get(data, k)
      else v
    }

    /** `key in d`. */
    predicate Contains(k: string)
    {
      HasKey(data, k)
    }

    /** `d[key]`: the value, or KeyError for a missing key. */
    function GetItem(k: string): (r: Result<Value>)
      ensures r.Failure? <==> !Contains(k)
      ensures r.Failure? ==> r.error == KeyError
      ensures r.Success? ==> r.value == GetOr(k, Null)
    {
      if HasKey(data, k) then Success(Get(data, k)) else Failure(KeyError)
    }

    /** `d == other`: both are documents with the same pk; the data is ignored. */
    predicate Equals(other: Document)
    {
      other.pk == pk
    }

    /** `hash(d)`: the hash of the pk. */
    function Hash(): (r: int)
      ensures pk >= 0 ==> r == pk
    {
      IntHash(pk)
    }

    /** `int(d)`: the pk. */
    function AsInt(): (r: int)
      ensures r == pk
    {
      pk
    }

    /**
     * `d.name`: an attribute already copied is read directly; otherwise the
     * first call copies the public keys (an empty key raises IndexError
     * part-way), and the value under `name` or AttributeError follows.
     */
    method GetAttr(name: string) returns (r: Result<Value>)
      requires Valid()
      modifies this
      ensures Valid()
      ensures name in old(attrs) ==> r == Success(old(attrs)[name]) && attrs == old(attrs) && attrsAssigned == old(attrsAssigned)
      ensures name !in old(attrs) && old(attrsAssigned) ==> attrs == old(attrs) && attrsAssigned
      ensures name !in old(attrs) && !old(attrsAssigned) && FirstEmptyKey(data) < |data| ==>
        r == Failure(IndexError) && !attrsAssigned && attrs == CopyAttrs(old(attrs), data[..FirstEmptyKey(data)])
      ensures name !in old(attrs) && !old(attrsAssigned) && FirstEmptyKey(data) == |data| ==>
        attrsAssigned && attrs == CopyAttrs(old(attrs), data)
      ensures r.Success? ==> HasKey(data, name) && r.value == Get(data, name)
      ensures r == Failure(AttributeError) <==> !HasKey(data, name) && (old(attrsAssigned) || FirstEmptyKey(data) == |data|)
    {
      if name in attrs {
        return Success(attrs[name]);
      }
      if !attrsAssigned {
        var copied, ok := CopyPublic(attrs, data);
        attrs := copied;
        if !ok {
          return Failure(IndexError);
        }
        assert data[..|data|] == data;
        attrsAssigned := true;
      }
      if HasKey(data, name) {
        r := Success(Get(data, name));
      } else {
        r := Failure(AttributeError);
      }
    }
  }

  /** `get` finds the first entry with the key. */
  lemma {:induction false} FirstGet(doc: Doc, k: string, i: nat)
    requires i < |doc| && doc[i].key == k
    ensures exists j :: 0 <= j < |doc| && doc[j].key == k && doc[j].val == Get(doc, k)
    decreases i
  {
    if doc[0].key != k {
      var rest := doc[1..];
      assert rest[i - 1].key == k;
      FirstGet(rest, k, i - 1);
      var j :| 0 <= j < |rest| && rest[j].key == k && rest[j].val == Get(rest, k);
      assert doc[j + 1] == rest[j];
    }
  }

  /**
   * The copying loop of `__getattr__`: `setattr` for each public key in
   * turn, stopping at the first empty key.
   */
  method CopyPublic(attrs: map<string, Value>, data: Doc) returns (r: map<string, Value>, ok: bool)
    requires UniqueKeys(data)
    requires Copied(data, attrs)
    ensures ok <==> FirstEmptyKey(data) == |data|
    ensures r == CopyAttrs(attrs, data[..FirstEmptyKey(data)])
    ensures Copied(data, r)
  {
    r := attrs;
    var i := 0;
    var stop := FirstEmptyKey(data);
    while i < |data| && data[i].key != ""
      invariant 0 <= i <= stop
      invariant r == CopyAttrs(attrs, data[..i])
      invariant Copied(data, r)
    {
      CopyOne(attrs, data, i, r);
      if Public(data[i].key) {
        r := r[data[i].key := data[i].val];
      }
      i := i + 1;
    }
    assert i == stop;
    ok := i == |data|;
  }

  /** Copying one more entry of a dict keeps every attribute a copy of the data. */
  lemma CopyOne(attrs: map<string, Value>, data: Doc, i: nat, r: map<string, Value>)
    requires UniqueKeys(data) && i < |data| && data[i].key != ""
    requires forall j :: 0 <= j < i ==> data[j].key != ""
    requires r == CopyAttrs(attrs, data[..i]) && Copied(data, r)
    ensures CopyAttrs(attrs, data[..i + 1]) == CopyEntry(r, data[i])
    ensures Copied(data, CopyEntry(r, data[i]))
  {
    assert data[..i + 1][..i] == data[..i];
    GetUnique(data, i);
  }

  /** Equality by pk is an equivalence that ignores the data, and equal documents hash alike. */
  lemma EqualsByPk(d: Document, e: Document)
    ensures d.Equals(e) <==> d.AsInt() == e.AsInt()
    ensures d.Equals(e) ==> e.Equals(d) && d.Hash() == e.Hash()
  {
  }
}
