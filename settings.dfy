// The per-file overlay (FileSettings.swift): the language shown last and the
// item ids marked translate-later or needs-work, kept beside the catalog
// because the catalog format has no place for them.

module Settings {
  import opened Wrappers
  import opened Json

  /** What the overlay file holds. */
  datatype Stored = Stored(lastLanguage: string, translateLater: set<string>, needsWork: set<string>)

  /** The default value: English and no marks. */
  const Default: Stored := Stored("en", {}, {})

  predicate IsStringArray(j: Json)
  {
    j.JArray? && forall i :: 0 <= i < |j.elements| ==> j.elements[i].JString?
  }

  /** A `Set<String>` decodes from an array of strings; repeats collapse. */
  function StringSet(j: Json): (r: set<string>)
    requires IsStringArray(j)
    ensures forall s :: s in r <==> exists i :: 0 <= i < |j.elements| && j.elements[i] == JString(s)
  {
    set i | 0 <= i < |j.elements| :: j.elements[i].str
  }

  /**
   * The synthesised decoder: an object with a string `lastLanguage` and
   * string arrays `translateLater` and `needsWork`; other keys are ignored.
   * A missing or mistyped field fails.
   */
  function Decode(j: Json): (r: Option<Stored>)
    ensures r.Some? <==>
              j.JObject? && "lastLanguage" in j.fields && j.fields["lastLanguage"].JString? &&
              "translateLater" in j.fields && IsStringArray(j.fields["translateLater"]) &&
              "needsWork" in j.fields && IsStringArray(j.fields["needsWork"])
    ensures r.Some? ==> r.value.lastLanguage == j.fields["lastLanguage"].str
  {
    if j.JObject? && "lastLanguage" in j.fields && j.fields["lastLanguage"].JString? &&
       "translateLater" in j.fields && IsStringArray(j.fields["translateLater"]) &&
       "needsWork" in j.fields && IsStringArray(j.fields["needsWork"])
    then Some(Stored(j.fields["lastLanguage"].str,
                     StringSet(j.fields["translateLater"]),
                     StringSet(j.fields["needsWork"])))
    else None
  }

  /** An array listing the strings of `order`, one per element. */
  function StringArray(order: seq<string>): (j: Json)
    ensures IsStringArray(j) && |j.elements| == |order|
    ensures forall i :: 0 <= i < |order| ==> j.elements[i] == JString(order[i])
  {
    JArray(seq(|order|, i requires 0 <= i < |order| => JString(order[i])))
  }

  /** `order` lists the members of `s`, each once. */
  predicate Enumerates(order: seq<string>, s: set<string>)
  {
    (forall i :: 0 <= i < |order| ==> order[i] in s) &&
    (forall x :: x in s ==> x in order)
  }

  /**
   * What `save` writes: the three fields, each set listed in the order the
   * set happens to iterate in, given here as a parameter.
   */
  function Encode(s: Stored, translateLaterOrder: seq<string>, needsWorkOrder: seq<string>): (j: Json)
    requires Enumerates(translateLaterOrder, s.translateLater) && Enumerates(needsWorkOrder, s.needsWork)
    ensures j.JObject? && j.fields.Keys == {"lastLanguage", "translateLater", "needsWork"}
  {
    JObject(map["lastLanguage" := JString(s.lastLanguage),
                "translateLater" := StringArray(translateLaterOrder),
                "needsWork" := StringArray(needsWorkOrder)])
  }

  lemma ArraySetRoundTrip(order: seq<string>, s: set<string>)
    requires Enumerates(order, s)
    ensures StringSet(StringArray(order)) == s
  {
    var j := StringArray(order);
    forall x | x in s
      ensures x in StringSet(j)
    {
      var i :| 0 <= i < |order| && order[i] == x;
      assert j.elements[i] == JString(x);
    }
  }

  /** Whatever order the sets iterate in, decoding what `save` wrote gives the settings back. */
  lemma EncodeDecode(s: Stored, translateLaterOrder: seq<string>, needsWorkOrder: seq<string>)
    requires Enumerates(translateLaterOrder, s.translateLater) && Enumerates(needsWorkOrder, s.needsWork)
    ensures Decode(Encode(s, translateLaterOrder, needsWorkOrder)) == Some(s)
  {
    var j := Encode(s, translateLaterOrder, needsWorkOrder);
    assert "lastLanguage" != "needsWork" && "translateLater" != "needsWork" by {
      assert "needsWork"[0] == 'n';
    }
    assert "lastLanguage" != "translateLater" by {
      assert "lastLanguage"[0] == 'l';
    }
    ArraySetRoundTrip(translateLaterOrder, s.translateLater);
    ArraySetRoundTrip(needsWorkOrder, s.needsWork);
  }

  /**
   * `load`: the decoded settings, or the default when the file cannot be
   * read (`data` is None) or does not decode.
   */
  function Loaded(data: Option<Json>): (r: Stored)
    ensures data.None? ==> r == Default
    ensures data.Some? && Decode(data.value).None? ==> r == Default
    ensures data.Some? && Decode(data.value).Some? ==> r == Decode(data.value).value
  {
    if data.Some? then Decode(data.value).GetOr(Default) else Default
  }

  /** The overlay as the editor holds it, updated in place. */
  class FileSettings {
    var lastLanguage: string
    var translateLater: set<string>
    var needsWork: set<string>

    function Value(): Stored
      reads this
    {
      Stored(lastLanguage, translateLater, needsWork)
    }

    /** `FileSettings()`: the declared defaults. */
    constructor ()
      ensures Value() == Default
    {
      lastLanguage := "en";
      translateLater := {};
      needsWork := {};
    }

    /** `FileSettings.load(fileURL:)`, with the file's contents as `data`. */
    constructor Load(data: Option<Json>)
      ensures Value() == Loaded(data)
    {
      var s := Loaded(data);
      lastLanguage := s.lastLanguage;
      translateLater := s.translateLater;
      needsWork := s.needsWork;
    }

    /** Inserts the id with set semantics: a second insert changes nothing. */
    method AppendTranslateLaterItemID(id: string)
      modifies this
      ensures translateLater == old(translateLater) + {id}
      ensures old(id in translateLater) ==> translateLater == old(translateLater)
      ensures lastLanguage == old(lastLanguage) && needsWork == old(needsWork)
    {
      translateLater := translateLater + {id};
    }

    /** Removes the id; an absent id leaves the set as it was. */
    method RemoveTranslateLaterItemID(id: string)
      modifies this
      ensures translateLater == old(translateLater) - {id} && id !in translateLater
      ensures old(id !in translateLater) ==> translateLater == old(translateLater)
      ensures lastLanguage == old(lastLanguage) && needsWork == old(needsWork)
    {
      translateLater := translateLater - {id};
    }

    /** Inserts the id with set semantics: a second insert changes nothing. */
    method AppendNeedsWorkItemID(id: string)
      modifies this
      ensures needsWork == old(needsWork) + {id}
      ensures old(id in needsWork) ==> needsWork == old(needsWork)
      ensures lastLanguage == old(lastLanguage) && translateLater == old(translateLater)
    {
      needsWork := needsWork + {id};
    }

    /** Removes the id; an absent id leaves the set as it was. */
    method RemoveNeedsWorkItemID(id: string)
      modifies this
      ensures needsWork == old(needsWork) - {id} && id !in needsWork
      ensures old(id !in needsWork) ==> needsWork == old(needsWork)
      ensures lastLanguage == old(lastLanguage) && translateLater == old(translateLater)
    {
      needsWork := needsWork - {id};
    }
  }
}
