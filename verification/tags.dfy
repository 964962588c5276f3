/**
 * Field-name resolution: the key under which a struct field is listed in a
 * JSON table, derived from the field's Go name and its `json` tag.
 */
module Tags {
  import opened Basics
  import opened Strings
  import opened Ast

  /** Why a field gets no row: it is hidden, or its tag literal is not a valid string literal. */
  datatype TagError = NotExported | BadTagLiteral

  /** The JSON key of a listed field and whether it carries the optional marker. */
  datatype Key = Key(key: string, optional: bool)

  const OptionalSuffix: string := " (optional)"

  /**
   * The key a field is listed under. Hidden: unexported names, and tags whose
   * `json` value starts with the component "-". Otherwise the key is the text
   * of the `json` value before its first comma (the Go name when there is no
   * tag or the value is empty), optional exactly when a later component is
   * `omitempty`.
   */
  function Resolve(name: string, tag: Tag): Result<Key, TagError> {
    if !IsExported(name) then Err(NotExported)
    else match tag
      case NoTag => Ok(Key(name, false))
      case Malformed => Err(BadTagLiteral)
      case Tag(json) =>
        if json == "" then Ok(Key(name, false))
        else
          var parts := Split(json, ',');
          if parts[0] == "-" then Err(NotExported)
          else Ok(Key(parts[0], "omitempty" in parts[1..]))
  }

  /**
   * Unexported names are hidden whatever the tag; a tag literal that does
   * not unquote is the only error; no tag, or an empty `json` value, keeps
   * the Go name; otherwise a first component "-" hides the field, and the
   * key is the text of the `json` value before its first comma, optional
   * exactly when a later component is `omitempty`.
   */
  lemma ResolveSpec(name: string, tag: Tag)
    ensures var r := Resolve(name, tag);
      (!IsExported(name) ==> r == Err(NotExported)) &&
      (r == Err(BadTagLiteral) <==> IsExported(name) && tag.Malformed?) &&
      (IsExported(name) && (tag.NoTag? || tag == Tag("")) ==> r == Ok(Key(name, false))) &&
      (IsExported(name) && tag.Tag? && tag.json != "" ==>
        (r == Err(NotExported) <==> Split(tag.json, ',')[0] == "-")) &&
      (r.Ok? && tag.Tag? && tag.json != "" ==>
        var json, key := tag.json, r.value.key;
        ',' !in key && key <= json && (|key| == |json| || json[|key|] == ',') &&
        (r.value.optional <==> "omitempty" in Split(json, ',')[1..]))
  {
    if tag.Tag? && tag.json != "" {
      FirstPieceIsPrefix(Split(tag.json, ','), ',');
    }
  }

  /** The first piece of a split is the text before the first separator. */
  lemma FirstPieceIsPrefix(parts: seq<string>, sep: char)
    requires |parts| >= 1
    ensures parts[0] <= Join(parts, sep)
    ensures |parts[0]| == |Join(parts, sep)| || Join(parts, sep)[|parts[0]|] == sep
  {
    if |parts| > 1 {
      assert Join(parts, sep) == parts[0] + ([sep] + Join(parts[1..], sep));
    }
  }

  /**
   * A `json` value written as a key followed by comma-separated options:
   * the key is listed, quoted, with the optional marker exactly when one of
   * the options is `omitempty` (however often it appears), unless the key
   * is "-"; an empty key stays empty rather than falling back to the Go name.
   */
  lemma {:induction false} KeyWithOptions(name: string, key: string, options: seq<string>)
    requires IsExported(name) && |options| >= 1
    requires ',' !in key && forall i :: 0 <= i < |options| ==> ',' !in options[i]
    ensures var json := key + [','] + Join(options, ',');
      FieldName(name, Tag(json)) ==
        if key == "-" then Err(NotExported)
        else Ok(Quote(key) + if "omitempty" in options then OptionalSuffix else "")
  {
    var parts := [key] + options;
    assert parts[1..] == options;
    SplitJoin(parts, ',');
    assert Join(parts, ',') == key + [','] + Join(options, ',');
  }

  /** A `json` value with no comma is the key itself, never optional. */
  lemma KeyAlone(name: string, key: string)
    requires IsExported(name) && ',' !in key && key != ""
    ensures FieldName(name, Tag(key)) == if key == "-" then Err(NotExported) else Ok(Quote(key))
  {
    NoSepSplit(key, ',');
    assert Quote(key) + "" == Quote(key);
  }

  /** How a key is shown in the table's first column. */
  function Display(k: Key): string {
    Quote(k.key) + (if k.optional then OptionalSuffix else "")
  }

  /** The text tagToName returns for a field, or the reason it gives none. */
  function FieldName(name: string, tag: Tag): Result<string, TagError> {
    match Resolve(name, tag)
    case Ok(k) => Ok(Display(k))
    case Err(e) => Err(e)
  }

  /** Reads a key back from the text shown in the table. */
  function ParseDisplay(d: string): Option<Key> {
    if HasSuffix(d, OptionalSuffix) then Unquoted(d[..|d| - |OptionalSuffix|], true)
    else Unquoted(d, false)
  }

  function Unquoted(q: string, optional: bool): Option<Key> {
    match Unquote(q)
    case Some(key) => Some(Key(key, optional))
    case None => None
  }

  /** The shown text determines the key and the optional marker: the suffix is never ambiguous. */
  lemma DisplayRoundTrip(k: Key)
    ensures ParseDisplay(Display(k)) == Some(k)
  {
    var q := Quote(k.key);
    if k.optional {
      assert Display(k)[..|Display(k)| - |OptionalSuffix|] == q;
    } else {
      assert Display(k) == q;
      assert q[|q| - 1] == '"';
    }
  }

  /**
   * tagToName: the loop over the components after the first sets the suffix
   * each time it meets `omitempty`, so the suffix is added at most once.
   */
  method TagToName(name: string, tag: Tag) returns (r: Result<string, TagError>)
    ensures r == FieldName(name, tag)
  {
    if !IsExported(name) {
      return Err(NotExported);
    }
    assert Display(Key(name, false)) == Quote(name);
    if !tag.NoTag? {
      if tag.Malformed? {
        return Err(BadTagLiteral);
      }
      var s := tag.json;
      if s == "" {
        return Ok(Quote(name));
      }
      var fields := Split(s, ',');
      if fields[0] == "-" {
        return Err(NotExported);
      }
      var suffix := "";
      for i := 1 to |fields|
        invariant suffix == if "omitempty" in fields[1..i] then OptionalSuffix else ""
      {
        assert fields[1..i + 1] == fields[1..i] + [fields[i]];
        if fields[i] == "omitempty" {
          suffix := OptionalSuffix;
        }
      }
      assert fields[1..|fields|] == fields[1..];
      return Ok(Quote(fields[0]) + suffix);
    }
    return Ok(Quote(name));
  }
}
