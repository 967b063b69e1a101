/**
 * `updateAndroidManifest`: every `meta-data` child of the manifest's
 * `application` element whose `name` attribute equals a requested name gets
 * the requested value, request by request, and the document is written back.
 *
 * The XML parser and writer are parameters: `parse` yields the `meta-data`
 * elements of a manifest text (or fails, which covers a malformed document
 * and a missing `application` element), and `render` gives the text the
 * writer produces once those elements carry their new attributes.
 */
module AndroidManifest {
  import opened Results
  import opened FileTree

  const ManifestName: string := "AndroidManifest.xml"

  /** A `meta-data` element; `None` is an attribute the element does not have. */
  datatype Element = Element(name: Option<string>, value: Option<string>)

  /** One requested (name, value) pair; a `null` name is `None`. */
  datatype MetaData = MetaData(name: Option<string>, value: string)

  datatype Manifest = Manifest(metaData: seq<MetaData>)

  /** `attribute.getValue().equals(name)`. */
  predicate Matches(e: Element, d: MetaData)
  {
    e.name.Some? && d.name == e.name
  }

  /**
   * The inner loop throws a NullPointerException at this element: it has no
   * `name` attribute, or it matches and has no `value` attribute.
   */
  predicate Fails(e: Element, d: MetaData)
  {
    e.name.None? || (Matches(e, d) && e.value.None?)
  }

  function Apply(e: Element, d: MetaData): Element
  {
    if Matches(e, d) then e.(value := Some(d.value)) else e
  }

  /** The inner loop over all elements for one request. */
  function PatchAll(es: seq<Element>, d: MetaData): Option<seq<Element>>
  {
    if exists k | 0 <= k < |es| :: Fails(es[k], d) then None
    else Some(seq(|es|, k requires 0 <= k < |es| => Apply(es[k], d)))
  }

  /** The outer loop: the requests applied in order; `None` once one throws. */
  function Patch(es: seq<Element>, reqs: seq<MetaData>): Option<seq<Element>>
  {
    if |reqs| == 0 then Some(es)
    else
      match Patch(es, reqs[..|reqs| - 1])
      case None => None
      case Some(cur) => PatchAll(cur, reqs[|reqs| - 1])
  }

  /** The value of the last request naming `name`, if any. */
  function LastValue(reqs: seq<MetaData>, name: string): Option<string>
  {
    if |reqs| == 0 then None
    else if reqs[|reqs| - 1].name == Some(name) then Some(reqs[|reqs| - 1].value)
    else LastValue(reqs[..|reqs| - 1], name)
  }

  /** What the patch leaves in the `value` attribute of `e`. */
  function PatchedValue(e: Element, reqs: seq<MetaData>): Option<string>
  {
    if e.name.Some? && LastValue(reqs, e.name.value).Some? then LastValue(reqs, e.name.value) else e.value
  }

  /** The patch goes through: no request at all, or no element makes it throw. */
  predicate PatchSucceeds(es: seq<Element>, reqs: seq<MetaData>)
  {
    |reqs| == 0 ||
    forall k | 0 <= k < |es| :: es[k].name.Some? && (es[k].value.None? ==> LastValue(reqs, es[k].name.value).None?)
  }

  /**
   * The meta-data update loop of `updateAndroidManifest`, in place on the
   * elements. On `false` the elements may be left half-patched, as the
   * document is in Java; the caller then discards them.
   */
  method PatchMetaData(elements: array<Element>, request: seq<MetaData>) returns (ok: bool)
    modifies elements
    ensures ok <==> Patch(old(elements[..]), request).Some?
    ensures ok ==> elements[..] == Patch(old(elements[..]), request).value
  {
    ghost var original := elements[..];
    var i := 0;
    while i < |request|
      invariant 0 <= i <= |request|
      invariant Patch(original, request[..i]) == Some(elements[..])
    {
      var d := request[i];
      ghost var before := elements[..];
      assert request[..i + 1][..i] == request[..i];
      var j := 0;
      while j < elements.Length
        invariant 0 <= j <= elements.Length
        invariant forall k :: j <= k < elements.Length ==> elements[k] == before[k]
        invariant forall k :: 0 <= k < j ==> !Fails(before[k], d) && elements[k] == Apply(before[k], d)
      {
        var e := elements[j];
        if e.name.None? || (e.name == d.name && e.value.None?) {
          assert Fails(before[j], d);
          PatchNoneExtends(original, request, i + 1);
          return false;
        }
        if e.name == d.name {
          elements[j] := e.(value := Some(d.value));
        }
        j := j + 1;
      }
      assert elements[..] == PatchAll(before, d).value;
      i := i + 1;
    }
    assert request[..i] == request;
    ok := true;
  }

  /**
   * The text `updateAndroidManifest` writes for the manifest text `text`, or
   * `None` when it returns false.
   */
  function ManifestUpdate(text: string, manifest: Option<Manifest>,
                          parse: string -> Option<seq<Element>>,
                          render: (string, seq<Element>) -> string): Option<string>
  {
    if manifest.None? || parse(text).None? then None
    else
      match Patch(parse(text).value, manifest.value.metaData)
      case None => None
      case Some(es) => Some(render(text, es))
  }

  /**
   * The whole update: a `null` manifest, a missing manifest file, a document
   * that does not parse, or an exception in the loop returns false without
   * writing; otherwise the file is rewritten once.
   */
  method UpdateAndroidManifest(fs: FileSystem, appFolder: Path, manifest: Option<Manifest>,
                               parse: string -> Option<seq<Element>>,
                               render: (string, seq<Element>) -> string) returns (ok: bool)
    requires fs.Valid()
    modifies fs
    ensures fs.Valid()
    ensures manifest.None? ==> !ok
    ensures var path := appFolder + [ManifestName];
      ok <==> path in old(fs.entries) && old(fs.entries)[path].File?
              && ManifestUpdate(old(fs.entries)[path].contents, manifest, parse, render).Some?
    ensures var path := appFolder + [ManifestName];
      ok ==> fs.entries == old(fs.entries)[path := File(ManifestUpdate(old(fs.entries)[path].contents, manifest, parse, render).value)]
    ensures !ok ==> fs.entries == old(fs.entries)
  {
    if manifest.None? {
      return false;
    }
    var path := appFolder + [ManifestName];
    if path !in fs.entries || fs.entries[path].Dir? {
      return false;
    }
    var text := fs.entries[path].contents;
    var parsed := parse(text);
    if parsed.None? {
      return false;
    }
    var es := parsed.value;
    var elements := new Element[|es|];
    forall k | 0 <= k < |es| {
      elements[k] := es[k];
    }
    assert elements[..] == es;
    ok := PatchMetaData(elements, manifest.value.metaData);
    if !ok {
      return false;
    }
    OverwriteWellFormed(fs.entries, path, render(text, elements[..]));
    fs.entries := fs.entries[path := File(render(text, elements[..]))];
  }

  // ---------------------------------------------------------------------------
  // Properties of the patch

  /** Once a request throws, the longer request list throws too. */
  lemma {:induction false} PatchNoneExtends(es: seq<Element>, reqs: seq<MetaData>, i: nat)
    requires i <= |reqs| && Patch(es, reqs[..i]).None?
    ensures Patch(es, reqs).None?
    decreases |reqs| - i
  {
    if i < |reqs| {
      assert reqs[..i + 1][..i] == reqs[..i];
      PatchNoneExtends(es, reqs, i + 1);
    } else {
      assert reqs[..i] == reqs;
    }
  }

  /**
   * The patch in closed form: it goes through exactly when `PatchSucceeds`
   * holds, and then it keeps the number of elements and every `name`, gives
   * each element whose name was requested the value of the LAST request for
   * that name (every such element, not only the first), and leaves every
   * other element as it was.
   */
  lemma {:induction false} PatchCharacterization(es: seq<Element>, reqs: seq<MetaData>)
    ensures Patch(es, reqs).Some? <==> PatchSucceeds(es, reqs)
    ensures Patch(es, reqs).Some? ==>
      var r := Patch(es, reqs).value;
      |r| == |es| && forall k :: 0 <= k < |es| ==> r[k] == Element(es[k].name, PatchedValue(es[k], reqs))
  {
    if |reqs| > 0 {
      var init, d := reqs[..|reqs| - 1], reqs[|reqs| - 1];
      PatchCharacterization(es, init);
      match Patch(es, init)
      case None =>
        var k :| 0 <= k < |es| && !(es[k].name.Some? && (es[k].value.None? ==> LastValue(init, es[k].name.value).None?));
        assert !PatchSucceeds(es, reqs) by {
          assert !(es[k].name.Some? && (es[k].value.None? ==> LastValue(reqs, es[k].name.value).None?));
        }
      case Some(cur) =>
        PatchStep(es, init, d, cur);
        assert reqs == init + [d];
    }
  }

  /** One more request on top of a patch that went through. */
  lemma PatchStep(es: seq<Element>, init: seq<MetaData>, d: MetaData, cur: seq<Element>)
    requires PatchSucceeds(es, init)
    requires |cur| == |es|
    requires forall k :: 0 <= k < |es| ==> cur[k] == Element(es[k].name, PatchedValue(es[k], init))
    ensures PatchAll(cur, d).Some? <==> PatchSucceeds(es, init + [d])
    ensures PatchAll(cur, d).Some? ==>
      var r := PatchAll(cur, d).value;
      |r| == |es| && forall k :: 0 <= k < |es| ==> r[k] == Element(es[k].name, PatchedValue(es[k], init + [d]))
  {
    var reqs := init + [d];
    assert reqs[..|reqs| - 1] == init;
    forall n: string ensures LastValue(reqs, n) == if d.name == Some(n) then Some(d.value) else LastValue(init, n) {
    }
    forall k | 0 <= k < |es|
      ensures Fails(cur[k], d) <==> !(es[k].name.Some? && (es[k].value.None? ==> LastValue(reqs, es[k].name.value).None?))
    {
    }
  }

  /** Patching twice with the same request changes nothing the first patch did not. */
  lemma PatchIdempotent(es: seq<Element>, reqs: seq<MetaData>)
    requires Patch(es, reqs).Some?
    ensures Patch(Patch(es, reqs).value, reqs) == Patch(es, reqs)
  {
    var r := Patch(es, reqs).value;
    PatchCharacterization(es, reqs);
    PatchCharacterization(r, reqs);
    assert PatchSucceeds(r, reqs) by {
      if |reqs| > 0 {
        forall k | 0 <= k < |r| ensures r[k].name.Some? && (r[k].value.None? ==> LastValue(reqs, r[k].name.value).None?) {
        }
      }
    }
    var r2 := Patch(r, reqs).value;
    assert |r2| == |r|;
    forall k | 0 <= k < |r| ensures r2[k] == r[k] {
      assert r[k] == Element(es[k].name, PatchedValue(es[k], reqs));
      assert PatchedValue(r[k], reqs) == r[k].value;
    }
    assert r2 == r;
  }

  /** Two elements sharing a name both receive the requested value. */
  lemma DuplicateNamesBothUpdated()
    ensures Patch([Element(Some("foo"), Some("a")), Element(Some("foo"), Some("b")), Element(Some("x"), Some("c"))],
                  [MetaData(Some("foo"), "bar")])
         == Some([Element(Some("foo"), Some("bar")), Element(Some("foo"), Some("bar")), Element(Some("x"), Some("c"))])
  {
    var es := [Element(Some("foo"), Some("a")), Element(Some("foo"), Some("b")), Element(Some("x"), Some("c"))];
    var reqs := [MetaData(Some("foo"), "bar")];
    assert reqs[..0] == [];
    assert !Fails(es[0], reqs[0]) && !Fails(es[1], reqs[0]) && !Fails(es[2], reqs[0]);
    assert !Matches(es[2], reqs[0]) by {
      assert "x" != "foo" by {
        assert "x"[0] != "foo"[0];
      }
    }
    assert Patch(es, reqs[..0]) == Some(es);
    var r := PatchAll(es, reqs[0]).value;
    assert r[0] == Element(Some("foo"), Some("bar"));
    assert r[1] == Element(Some("foo"), Some("bar"));
    assert r[2] == es[2];
    assert r == [Element(Some("foo"), Some("bar")), Element(Some("foo"), Some("bar")), Element(Some("x"), Some("c"))];
  }
}
