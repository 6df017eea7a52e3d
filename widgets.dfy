/** The content ("widget") payloads attached to tree nodes, their attribute view and the
    placement rules each widget class declares. The classes are the ones the core tests
    register with their site. */
module Widgets {
  import opened Outcomes

  /** A content class. `Custom` stands for a class declared ad hoc (the registry tests
      declare one) that keeps the base Content behaviour. */
  datatype Kind =
    | Layout
    | AnotherLayout
    | Bucket
    | PickyBucket
    | ImmovableBucket
    | VowelBucket
    | RawText
    | CantGoAnywhere
    | ForeignKey
    | Custom(name: string)

  /** The Python class name of a content class. */
  function ClassName(k: Kind): string
  {
    match k
    case Layout => "Layout"
    case AnotherLayout => "AnotherLayout"
    case Bucket => "Bucket"
    case PickyBucket => "PickyBucket"
    case ImmovableBucket => "ImmovableBucket"
    case VowelBucket => "VowelBucket"
    case RawText => "RawTextWidget"
    case CantGoAnywhere => "CantGoAnywhereWidget"
    case ForeignKey => "ForeignKeyWidget"
    case Custom(name) => name
  }

  /** A stored field value: text, or the primary key held by a foreign key. */
  datatype Value = Text(s: string) | Key(pk: nat)

  /** A content row: its class and its stored field values (column name to value). */
  datatype Content = Content(kind: Kind, fields: map<string, Value>)

  /** The columns a class declares itself; the row id and inheritance pointers are not
      among them. */
  function FieldNames(k: Kind): set<string>
  {
    match k
    case RawText => {"text"}
    case ForeignKey => {"foo_id"}
    case _ => {}
  }

  /** get_attributes: the flat attribute view of a content, its own declared columns. */
  function Attributes(c: Content): map<string, Value>
  {
    map f | f in c.fields && f in FieldNames(c.kind) :: c.fields[f]
  }

  /** Content.equal: two contents are equal when their attribute views are, whatever
      classes wrap them. */
  predicate Equal(a: Content, b: Content)
  {
    Attributes(a) == Attributes(b)
  }

  /** The text a RawTextWidget row holds ("" when it holds none). */
  function TextOf(c: Content): string
  {
    if "text" in c.fields && c.fields["text"].Text? then c.fields["text"].s else ""
  }

  /** A RawTextWidget with the given text. */
  function TextWidget(s: string): Content
  {
    Content(RawText, map["text" := Text(s)])
  }

  /** A content of a class that stores no fields of its own. */
  function Plain(k: Kind): Content
  {
    Content(k, map[])
  }

  /** What validation is asked about: a class alone, or a built instance. */
  datatype Candidate = ClassOf(kind: Kind) | Instance(content: Content)

  function CandidateKind(c: Candidate): Kind
  {
    match c
    case ClassOf(k) => k
    case Instance(x) => x.kind
  }

  predicate IsBucketClass(k: Kind)
  {
    k == Bucket || k == PickyBucket || k == ImmovableBucket || k == VowelBucket
  }

  predicate IsVowel(ch: char)
  {
    ch in "AEIOUaeiou"
  }

  /** valid_parent_of: whether `parent` accepts `child` below it. Layouts take only
      buckets; Bucket and ImmovableBucket take anything; PickyBucket takes RawTextWidgets
      except the text "aasdf"; VowelBucket takes classes whose name starts with a vowel;
      every other class accepts no children. */
  predicate ValidParentOf(parent: Content, child: Candidate)
  {
    var k := CandidateKind(child);
    match parent.kind
    case Layout => IsBucketClass(k)
    case AnotherLayout => IsBucketClass(k)
    case Bucket => true
    case ImmovableBucket => true
    case PickyBucket => k == RawText && (child.Instance? ==> TextOf(child.content) != "aasdf")
    case VowelBucket => |ClassName(k)| > 0 && IsVowel(ClassName(k)[0])
    case _ => false
  }

  /** valid_child_of: whether `child` agrees to live below `parent`. Only
      CantGoAnywhereWidget refuses every parent. */
  predicate ValidChildOf(child: Candidate, parent: Content)
  {
    CandidateKind(child) != CantGoAnywhere
  }

  /** get_attributes on the classes of the attribute test: buckets and layouts expose
      nothing, a RawTextWidget its text, a ForeignKeyWidget the key it holds. */
  lemma GetAttributesCases(pk: nat)
    ensures Attributes(Plain(Bucket)) == map[]
    ensures Attributes(TextWidget("foo")) == map["text" := Text("foo")]
    ensures Attributes(Plain(AnotherLayout)) == map[]
    ensures Attributes(Content(ForeignKey, map["foo_id" := Key(pk)])) == map["foo_id" := Key(pk)]
  {
  }

  /** Content equality compares attribute views: texts "a" and "b" differ, two "a" agree,
      and two AnotherLayout rows (no own fields) agree. */
  lemma ContentEqualCases()
    ensures !Equal(TextWidget("a"), TextWidget("b"))
    ensures Equal(TextWidget("a"), TextWidget("a"))
    ensures Equal(Plain(AnotherLayout), Plain(AnotherLayout))
  {
    assert Attributes(TextWidget("a"))["text"] == Text("a");
  }

}
