/** The data steps of the icon bundler: grouping the configured icon names by prefix
    (`organizeIconsList`), stripping the metadata keys of a loaded icon set (`removeMetaData`),
    and thinning the strokes of the Tabler set. */
module IconsBundle {
  import opened Wrappers
  import opened Strings

  /** What `stringToIcon` gives for a parsable icon string such as `mdi:home`. */
  datatype IconName = IconName(prefix: string, name: string)

  /** A JSON value, as `JSON.parse` gives it. Numbers are kept as integers. */
  datatype Json =
    | JNull
    | JBool(b: bool)
    | JNum(n: int)
    | JStr(s: string)
    | JArr(elems: seq<Json>)
    | JObj(members: map<string, Json>)

  // ---------------------------------------------------------------------------------------
  // organizeIconsList

  /** One step of `organizeIconsList`: the prefix's list is created if missing, and the name is
      pushed unless `indexOf` finds it already. */
  function AddIcon(sorted: map<string, seq<string>>, item: IconName): (r: map<string, seq<string>>)
    ensures r.Keys == sorted.Keys + {item.prefix}
    ensures forall p :: p in sorted && p != item.prefix ==> r[p] == sorted[p]
  {
    var prefixList := if item.prefix in sorted then sorted[item.prefix] else [];
    if item.name in prefixList then sorted[item.prefix := prefixList]
    else sorted[item.prefix := prefixList + [item.name]]
  }

  /** The dictionary `organizeIconsList` builds from a prefix of the icon strings; strings that
      `stringToIcon` rejects are skipped. */
  function Organized(icons: seq<string>, stringToIcon: string -> Option<IconName>): map<string, seq<string>> {
    if icons == [] then map[]
    else
      var sorted := Organized(icons[..|icons| - 1], stringToIcon);
      match stringToIcon(icons[|icons| - 1])
      case None => sorted
      case Some(item) => AddIcon(sorted, item)
  }

  /** `organizeIconsList(icons)`, the `forEach` as a loop; `stringToIcon` is a parameter. */
  method OrganizeIconsList(icons: seq<string>, stringToIcon: string -> Option<IconName>)
    returns (sorted: map<string, seq<string>>)
    ensures sorted == Organized(icons, stringToIcon)
  {
    sorted := map[];
    var i := 0;
    while i < |icons|
      invariant 0 <= i <= |icons|
      invariant sorted == Organized(icons[..i], stringToIcon)
    {
      assert icons[..i + 1][..i] == icons[..i];
      var item := stringToIcon(icons[i]);
      if item.Some? {
        var prefix := item.value.prefix;
        var prefixList := if prefix in sorted then sorted[prefix] else [];
        sorted := sorted[prefix := prefixList];
        var name := item.value.name;
        if name !in prefixList {
          sorted := sorted[prefix := prefixList + [name]];
        }
      }
      i := i + 1;
    }
    assert icons[..i] == icons;
  }

  /** Reference definition: the names of the parsed icons with prefix `p`, in order, repeats
      included. */
  function NamesOf(icons: seq<string>, stringToIcon: string -> Option<IconName>, p: string): seq<string> {
    if icons == [] then []
    else
      NamesOf(icons[..|icons| - 1], stringToIcon, p)
        + match stringToIcon(icons[|icons| - 1])
          case Some(item) => if item.prefix == p then [item.name] else []
          case None => []
  }

  /** Reference definition: the first occurrence of each element, in order. */
  function Dedup(s: seq<string>): (r: seq<string>)
    ensures forall x :: x in r <==> x in s
  {
    if s == [] then []
    else
      var init := s[..|s| - 1];
      assert forall x :: x in s <==> x in init || x == s[|s| - 1];
      Dedup(init) + if s[|s| - 1] in init then [] else [s[|s| - 1]]
  }

  ghost predicate NoDuplicates(s: seq<string>) {
    forall i, j :: 0 <= i < j < |s| ==> s[i] != s[j]
  }

  lemma {:induction false} DedupHasNoDuplicates(s: seq<string>)
    ensures NoDuplicates(Dedup(s))
  {
    if s != [] {
      DedupHasNoDuplicates(s[..|s| - 1]);
    }
  }

  /** The dictionary holds a key for `p` exactly when some parsed icon has that prefix, and
      under it the first occurrence of each of that prefix's names, in the order met. */
  lemma {:induction false} OrganizedIsFirstOccurrences(icons: seq<string>, stringToIcon: string -> Option<IconName>, p: string)
    ensures p in Organized(icons, stringToIcon) <==> NamesOf(icons, stringToIcon, p) != []
    ensures p in Organized(icons, stringToIcon) ==>
      Organized(icons, stringToIcon)[p] == Dedup(NamesOf(icons, stringToIcon, p))
  {
    if icons != [] {
      var init := icons[..|icons| - 1];
      OrganizedIsFirstOccurrences(init, stringToIcon, p);
      var sorted := Organized(init, stringToIcon);
      var names := NamesOf(init, stringToIcon, p);
      var parsed := stringToIcon(icons[|icons| - 1]);
      if parsed.Some? && parsed.value.prefix == p {
        var item := parsed.value;
        assert Organized(icons, stringToIcon) == AddIcon(sorted, item);
        assert NamesOf(icons, stringToIcon, p) == names + [item.name];
        assert (names + [item.name])[..|names|] == names;
        var prefixList := if p in sorted then sorted[p] else [];
        assert prefixList == Dedup(names);
      } else {
        assert NamesOf(icons, stringToIcon, p) == names;
        assert parsed.Some? ==> Organized(icons, stringToIcon) == AddIcon(sorted, parsed.value);
      }
    }
  }

  /** No prefix's list holds a name twice. */
  lemma OrganizedHasNoDuplicates(icons: seq<string>, stringToIcon: string -> Option<IconName>, p: string)
    requires p in Organized(icons, stringToIcon)
    ensures NoDuplicates(Organized(icons, stringToIcon)[p])
  {
    OrganizedIsFirstOccurrences(icons, stringToIcon, p);
    DedupHasNoDuplicates(NamesOf(icons, stringToIcon, p));
  }

  /** A name is listed under a prefix exactly when some icon string parses to that pair;
      strings `stringToIcon` rejects leave no trace. */
  lemma {:induction false} OrganizedMembership(icons: seq<string>, stringToIcon: string -> Option<IconName>, p: string, name: string)
    ensures (p in Organized(icons, stringToIcon) && name in Organized(icons, stringToIcon)[p])
      <==> exists i :: 0 <= i < |icons| && stringToIcon(icons[i]) == Some(IconName(p, name))
  {
    OrganizedIsFirstOccurrences(icons, stringToIcon, p);
    NamesOfMembership(icons, stringToIcon, p, name);
  }

  lemma {:induction false} NamesOfMembership(icons: seq<string>, stringToIcon: string -> Option<IconName>, p: string, name: string)
    ensures name in NamesOf(icons, stringToIcon, p)
      <==> exists i :: 0 <= i < |icons| && stringToIcon(icons[i]) == Some(IconName(p, name))
  {
    if icons != [] {
      var init := icons[..|icons| - 1];
      NamesOfMembership(init, stringToIcon, p, name);
      assert forall i :: 0 <= i < |init| ==> init[i] == icons[i];
      if name in NamesOf(icons, stringToIcon, p) && name !in NamesOf(init, stringToIcon, p) {
        assert stringToIcon(icons[|icons| - 1]) == Some(IconName(p, name));
      }
    }
  }

  // ---------------------------------------------------------------------------------------
  // removeMetaData and the Tabler rewrite

  /** The keys `removeMetaData` deletes, in the order it deletes them. */
  const MetaDataProps: seq<string> := ["info", "chars", "categories", "themes", "prefixes", "suffixes"]

  /** The attribute the Tabler rewrite looks for, and what it becomes. */
  const StrokeTwo: string := "stroke-width=\"2\""
  const StrokeOneAndHalf: string := "stroke-width=\"1.5\""

  /** `body.replace(/stroke-width="2"/g, 'stroke-width="1.5"')`. */
  function Thinner(body: string): string {
    ReplaceAll(body, StrokeTwo, StrokeOneAndHalf)
  }

  /** An icon entry of an icon set: an object with a string `body`. */
  predicate HasBody(icon: Json) {
    icon.JObj? && "body" in icon.members && icon.members["body"].JStr?
  }

  /** The icon entry with its body thinned and every other attribute kept. */
  function ThinIcon(icon: Json): (r: Json)
    requires HasBody(icon)
    ensures HasBody(r) && r.members.Keys == icon.members.Keys
    ensures r.members["body"] == JStr(Thinner(icon.members["body"].s))
    ensures forall k :: k in icon.members && k != "body" ==> r.members[k] == icon.members[k]
  {
    JObj(icon.members["body" := JStr(Thinner(icon.members["body"].s))])
  }

  /** The set's `prefix` is `"tabler"`. */
  predicate IsTabler(fields: map<string, Json>) {
    "prefix" in fields && fields["prefix"] == JStr("tabler")
  }

  /** What the `for (const key in content.icons)` loop can work on without failing: an object
      of icon entries, each with a string body. */
  predicate IconsWellFormed(icons: Json) {
    icons.JObj? && forall k :: k in icons.members ==> HasBody(icons.members[k])
  }

  /** A JSON icon set, as `JSON.parse` gave it, whose keys are deleted and assigned in place. */
  class IconSetContent {
    var fields: map<string, Json>

    constructor(fields: map<string, Json>)
      ensures this.fields == fields
    {
      this.fields := fields;
    }

    /** `removeMetaData(iconSet)`: delete the six metadata keys, one by one. */
    method RemoveMetaData()
      modifies this
      ensures forall k :: k in fields <==> k in old(fields) && k !in MetaDataProps
      ensures forall k :: k in fields ==> fields[k] == old(fields)[k]
    {
      var i := 0;
      while i < |MetaDataProps|
        invariant 0 <= i <= |MetaDataProps|
        invariant forall k :: k in fields <==> k in old(fields) && k !in MetaDataProps[..i]
        invariant forall k :: k in fields ==> fields[k] == old(fields)[k]
      {
        assert MetaDataProps[..i + 1] == MetaDataProps[..i] + [MetaDataProps[i]];
        fields := fields - {MetaDataProps[i]};
        i := i + 1;
      }
      assert MetaDataProps[..i] == MetaDataProps;
    }

    /** The Tabler rewrite: when the set's prefix is `tabler`, every icon body has each
        `stroke-width="2"` replaced by `stroke-width="1.5"`; any other set is left alone. */
    method ThinTablerStrokes()
      modifies this
      requires IsTabler(fields) && "icons" in fields ==> IconsWellFormed(fields["icons"])
      ensures !IsTabler(old(fields)) || "icons" !in old(fields) ==> fields == old(fields)
      ensures IsTabler(old(fields)) && "icons" in old(fields) ==>
        && fields.Keys == old(fields).Keys
        && (forall k :: k in fields && k != "icons" ==> fields[k] == old(fields)[k])
        && fields["icons"].JObj?
        && fields["icons"].members.Keys == old(fields)["icons"].members.Keys
        && forall name :: name in fields["icons"].members ==>
             fields["icons"].members[name] == ThinIcon(old(fields)["icons"].members[name])
    {
      if IsTabler(fields) && "icons" in fields {
        var icons := fields["icons"].members;
        var result := icons;
        var keys := icons.Keys;
        while keys != {}
          invariant keys <= icons.Keys && result.Keys == icons.Keys
          invariant forall name :: name in icons ==>
            result[name] == if name in keys then icons[name] else ThinIcon(icons[name])
          decreases keys
        {
          var name :| name in keys;
          result := result[name := ThinIcon(icons[name])];
          keys := keys - {name};
        }
        fields := fields["icons" := JObj(result)];
      }
    }
  }

  /** A body without the wide stroke attribute is not touched. */
  lemma ThinnerKeepsOtherBodies(body: string)
    requires !Contains(body, StrokeTwo)
    ensures Thinner(body) == body
  {
    ReplaceAllAbsent(body, StrokeTwo, StrokeOneAndHalf);
  }

  /** The attribute itself becomes `stroke-width="1.5"` and the text around it is kept, whenever
      no other `stroke-width="2"` starts before it or after it: the text before the attribute,
      followed by all of the attribute but its last character, does not contain it, and the text
      after it does not either. */
  lemma {:induction false} ThinnerRewritesAttribute(before: string, after: string)
    requires !Contains(before + StrokeTwo[..|StrokeTwo| - 1], StrokeTwo)
    requires !Contains(after, StrokeTwo)
    ensures Thinner(before + StrokeTwo + after) == before + StrokeOneAndHalf + after
  {
    ReplaceAllOnce(before, StrokeTwo, after, StrokeOneAndHalf);
  }
}
