/**
 * Display projection: how the picker turns one element of the bound list into
 * the string it shows. With a blank DisplayMemberBinding the element's own
 * string form is used; otherwise the runtime fields of the element are scanned
 * and the last one whose name contains the binding supplies the text.
 * Reflection is replaced by a TypeInfo value that gives, per element, its
 * string form and its fields in declaration order.
 */
module Display {
  import opened Wrappers

  /** A value, or the NullReferenceException the C# code raises instead. */
  datatype Result<R> = Ok(value: R) | NullReference

  /** One runtime field: its name and the string form of its value (None when the field holds null). */
  datatype Field = Field(name: string, value: Option<string>)

  /** What the adapter learns about an element type: ToString() and the runtime fields in declaration order. */
  datatype TypeInfo<!T> = TypeInfo(text: T -> string, fields: T -> seq<Field>)

  /** char.IsWhiteSpace: the Unicode space separators, line and paragraph separators, and the control characters U+0009-U+000D and U+0085. */
  predicate IsWhiteSpace(c: char)
  {
    c == ' ' || '\t' <= c <= '\r' || c == '\U{0085}' || c == '\U{00A0}' || c == '\U{1680}'
    || '\U{2000}' <= c <= '\U{200A}' || c == '\U{2028}' || c == '\U{2029}'
    || c == '\U{202F}' || c == '\U{205F}' || c == '\U{3000}'
  }

  /** string.IsNullOrWhiteSpace for a non-null string: empty or whitespace only. */
  predicate IsNullOrWhiteSpace(s: string)
  {
    forall i :: 0 <= i < |s| ==> IsWhiteSpace(s[i])
  }

  /** string.Contains: part occurs in s as a contiguous, case-sensitive substring. */
  predicate Contains(s: string, part: string)
  {
    exists i :: 0 <= i <= |s| && part <= s[i..]
  }

  predicate Matches(f: Field, member: string)
  {
    Contains(f.name, member)
  }

  /** Position of the last field whose name contains member, if there is one. */
  function LastMatch(fields: seq<Field>, member: string): (r: Option<nat>)
    ensures r.Some? ==> r.value < |fields| && Matches(fields[r.value], member)
    ensures r.Some? ==> forall j :: r.value < j < |fields| ==> !Matches(fields[j], member)
    ensures r.None? ==> forall j :: 0 <= j < |fields| ==> !Matches(fields[j], member)
  {
    if fields == [] then None
    else if Matches(fields[|fields| - 1], member) then Some(|fields| - 1)
    else LastMatch(fields[..|fields| - 1], member)
  }

  /**
   * The text a named member yields: reading a matching field that holds null
   * throws; otherwise the last matching field wins, and "" when none matches.
   */
  function MemberText(fields: seq<Field>, member: string): (r: Result<string>)
    ensures r.NullReference? <==>
      exists j :: 0 <= j < |fields| && Matches(fields[j], member) && fields[j].value.None?
    ensures r.Ok? && (forall j :: 0 <= j < |fields| ==> !Matches(fields[j], member)) ==> r.value == ""
    ensures r.Ok? ==> forall j :: 0 <= j < |fields| && Matches(fields[j], member) ==>
      (fields[j].value == Some(r.value) || exists k :: j < k < |fields| && Matches(fields[k], member))
  {
    if exists j :: 0 <= j < |fields| && Matches(fields[j], member) && fields[j].value.None? then
      NullReference
    else
      match LastMatch(fields, member)
      case None => Ok("")
      case Some(j) => Ok(fields[j].value.value)
  }

  /** The field scan of one element: every matching field overwrites the text read so far. */
  method LookupMember(fields: seq<Field>, member: string) returns (r: Result<string>)
    ensures r == MemberText(fields, member)
  {
    var actualValue := "";
    var i := 0;
    while i < |fields|
      invariant 0 <= i <= |fields|
      invariant forall j :: 0 <= j < i && Matches(fields[j], member) ==> fields[j].value.Some?
      invariant LastMatch(fields[..i], member).None? ==> actualValue == ""
      invariant LastMatch(fields[..i], member).Some? ==>
                  actualValue == fields[LastMatch(fields[..i], member).value].value.value
    {
      assert fields[..i + 1][..i] == fields[..i];
      if Matches(fields[i], member) {
        if fields[i].value.None? {
          return NullReference;
        }
        actualValue := fields[i].value.value;
      }
      i := i + 1;
    }
    assert fields[..i] == fields;
    r := Ok(actualValue);
  }

  /** item?.ToString(): the text the rebuild shows for an element when no member is bound. */
  function DefaultText<T>(info: TypeInfo<T>, e: Option<T>): (r: Option<string>)
    ensures r.None? <==> e.None?
  {
    match e
    case None => None
    case Some(x) => Some(info.text(x))
  }

  /** (item ?? "").ToString(): the text the collection-changed handler uses for an element. */
  function DeltaText<T>(info: TypeInfo<T>, e: Option<T>): (r: string)
    ensures e.Some? ==> DefaultText(info, e) == Some(r)
    ensures e.None? ==> DefaultText(info, e).None? && r == ""
  {
    match e
    case None => ""
    case Some(x) => info.text(x)
  }

  /** The entry the ItemsSource rebuild adds for element e, or the exception it raises. */
  function Project<T>(info: TypeInfo<T>, member: string, e: Option<T>): (r: Result<Option<string>>)
    ensures IsNullOrWhiteSpace(member) ==> r.Ok? && (r.value.None? <==> e.None?)
    ensures !IsNullOrWhiteSpace(member) ==>
      (r.NullReference? <==> e.None? || MemberText(info.fields(e.value), member).NullReference?)
    ensures !IsNullOrWhiteSpace(member) && r.Ok? ==> r.value.Some?
  {
    if IsNullOrWhiteSpace(member) then Ok(DefaultText(info, e))
    else if e.None? then NullReference
    else
      match MemberText(info.fields(e.value), member)
      case NullReference => NullReference
      case Ok(t) => Ok(Some(t))
  }

  /** entries are the projections of the first |entries| elements, in order. */
  predicate ProjectsPrefix<T>(info: TypeInfo<T>, member: string, entries: seq<Option<string>>, elems: seq<Option<T>>)
  {
    |entries| <= |elems| &&
    forall j :: 0 <= j < |entries| ==> Project(info, member, elems[j]) == Ok(entries[j])
  }

  /** Positional correspondence: one entry per element, each the element's projection. */
  predicate Corresponds<T>(info: TypeInfo<T>, member: string, entries: seq<Option<string>>, elems: seq<Option<T>>)
  {
    |entries| == |elems| && ProjectsPrefix(info, member, entries, elems)
  }

  /** With a blank binding every element projects to its string form, a null element to a null entry. */
  lemma BlankMemberProjection<T>(info: TypeInfo<T>, member: string, e: Option<T>)
    requires IsNullOrWhiteSpace(member)
    ensures e.None? ==> Project(info, member, e) == Ok(None)
    ensures e.Some? ==> Project(info, member, e) == Ok(Some(info.text(e.value)))
  {
  }

  /**
   * With a non-blank binding a non-null element projects to the value of its
   * last field whose name contains the binding, or to "" when none does; a
   * null element, or a matching field that holds null, makes it throw.
   */
  lemma {:induction false} NamedMemberProjection<T>(info: TypeInfo<T>, member: string, e: Option<T>)
    requires !IsNullOrWhiteSpace(member)
    ensures e.None? ==> Project(info, member, e).NullReference?
    ensures e.Some? ==>
      var fs := info.fields(e.value);
      Project(info, member, e).Ok? <==> forall j :: 0 <= j < |fs| && Matches(fs[j], member) ==> fs[j].value.Some?
    ensures e.Some? && Project(info, member, e).Ok? ==>
      var fs := info.fields(e.value);
      (exists j :: 0 <= j < |fs| && Matches(fs[j], member)) ==>
        exists j :: 0 <= j < |fs| && Matches(fs[j], member) && Project(info, member, e) == Ok(fs[j].value) &&
                    (forall k :: j < k < |fs| ==> !Matches(fs[k], member))
    ensures e.Some? && Project(info, member, e).Ok? ==>
      var fs := info.fields(e.value);
      (forall j :: 0 <= j < |fs| ==> !Matches(fs[j], member)) ==> Project(info, member, e) == Ok(Some(""))
  {
    if e.Some? {
      var fs := info.fields(e.value);
      var m := LastMatch(fs, member);
      if m.Some? && Project(info, member, e).Ok? {
        assert Matches(fs[m.value], member);
      }
    }
  }

  /** Which characters char.IsWhiteSpace accepts: ASCII blanks and Unicode spaces, but not the zero-width ones. */
  lemma WhiteSpaceCharacters()
    ensures IsWhiteSpace(' ') && IsWhiteSpace('\t') && IsWhiteSpace('\n') && IsWhiteSpace('\r')
    ensures IsWhiteSpace('\U{00A0}') && IsWhiteSpace('\U{2003}') && IsWhiteSpace('\U{3000}')
    ensures !IsWhiteSpace('a') && !IsWhiteSpace('\0') && !IsWhiteSpace('\U{200B}') && !IsWhiteSpace('\U{FEFF}')
  {
  }

  /**
   * A binding is blank exactly when each of its pieces is: the empty string is
   * blank, and one non-whitespace character anywhere makes a binding named.
   */
  lemma BlankBindings(s: string, t: string)
    ensures IsNullOrWhiteSpace("")
    ensures IsNullOrWhiteSpace(s + t) <==> IsNullOrWhiteSpace(s) && IsNullOrWhiteSpace(t)
    ensures !IsNullOrWhiteSpace(" Name ")
  {
    if IsNullOrWhiteSpace(s + t) {
      forall i | 0 <= i < |s| ensures IsWhiteSpace(s[i]) {
        assert s[i] == (s + t)[i];
      }
      forall i | 0 <= i < |t| ensures IsWhiteSpace(t[i]) {
        assert t[i] == (s + t)[|s| + i];
      }
    }
    if IsNullOrWhiteSpace(s) && IsNullOrWhiteSpace(t) {
      forall i | 0 <= i < |s + t| ensures IsWhiteSpace((s + t)[i]) {
        if i < |s| { assert (s + t)[i] == s[i]; } else { assert (s + t)[i] == t[i - |s|]; }
      }
    }
    assert !IsWhiteSpace(" Name "[1]);
  }

  /** string.Contains holds exactly when s splits as a prefix, part and a suffix. */
  lemma ContainsAsInfix(s: string, part: string)
    ensures Contains(s, part) <==> exists a, b :: s == a + part + b
  {
    if Contains(s, part) {
      var i :| 0 <= i <= |s| && part <= s[i..];
      assert s == s[..i] + part + s[i + |part|..];
    }
    if exists a, b :: s == a + part + b {
      var a, b :| s == a + part + b;
      assert part <= s[|a|..];
    }
  }
}
