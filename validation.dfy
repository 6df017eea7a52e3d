/** validate_relationship: the decision whether a content may sit below another, and
    which side objects when it may not. */
module Validation {
  import opened Outcomes
  import opened Widgets

  /** Both sides are asked. When only the parent refuses, the child was rejected; when
      only the child refuses, the parent was rejected; when both refuse, the rejection
      is mutual. Nothing is changed either way. */
  function ValidateRelationship(parent: Content, child: Candidate): (r: Outcome)
    ensures r.Pass? <==> ValidParentOf(parent, child) && ValidChildOf(child, parent)
    ensures r == Fail(ChildWasRejected) <==> !ValidParentOf(parent, child) && ValidChildOf(child, parent)
    ensures r == Fail(ParentWasRejected) <==> ValidParentOf(parent, child) && !ValidChildOf(child, parent)
    ensures r == Fail(MutualRejection) <==> !ValidParentOf(parent, child) && !ValidChildOf(child, parent)
  {
    var badChild := !ValidParentOf(parent, child);
    var badParent := !ValidChildOf(child, parent);
    if badChild && badParent then Fail(MutualRejection)
    else if badParent then Fail(ParentWasRejected)
    else if badChild then Fail(ChildWasRejected)
    else Pass
  }

  /** The tests call add_child with a class and field values, and one refusal in them
      (PickyBucket given a Layout) is decided by the class alone. This model assumes that
      add_child may ask the validator about the class before it builds the instance; the
      lemma shows the assumption is harmless. A class-level refusal is already the
      instance-level verdict, and an accepted class is refused later only by the parent's
      instance rule. */
  lemma ClassCheckAgreesWithInstanceCheck(parent: Content, c: Content)
    ensures ValidateRelationship(parent, ClassOf(c.kind)).Fail? ==>
              ValidateRelationship(parent, Instance(c)) == ValidateRelationship(parent, ClassOf(c.kind))
    ensures ValidateRelationship(parent, ClassOf(c.kind)).Pass? ==>
              ValidateRelationship(parent, Instance(c)) in {Pass, Fail(ChildWasRejected)}
  {
  }

  /** The class-level cases of the core tests: a Layout refuses a RawTextWidget, a
      CantGoAnywhereWidget refuses a Bucket, and both sides refuse under a Layout. */
  lemma ValidateClassCases()
    ensures ValidateRelationship(Plain(Layout), ClassOf(RawText)) == Fail(ChildWasRejected)
    ensures ValidateRelationship(Plain(Bucket), ClassOf(CantGoAnywhere)) == Fail(ParentWasRejected)
    ensures ValidateRelationship(Plain(Layout), ClassOf(CantGoAnywhere)) == Fail(MutualRejection)
  {
  }

  /** The instance-level cases: a PickyBucket refuses the text "aasdf" and a Layout, and
      accepts the text "hello"; the proxy VowelBucket takes an ImmovableBucket and refuses
      a Bucket. */
  lemma ValidateInstanceCases()
    ensures ValidateRelationship(Plain(PickyBucket), Instance(TextWidget("aasdf"))) == Fail(ChildWasRejected)
    ensures ValidateRelationship(Plain(PickyBucket), Instance(TextWidget("hello"))) == Pass
    ensures ValidateRelationship(Plain(PickyBucket), ClassOf(Layout)) == Fail(ChildWasRejected)
    ensures ValidateRelationship(Plain(VowelBucket), ClassOf(ImmovableBucket)) == Pass
    ensures ValidateRelationship(Plain(VowelBucket), ClassOf(Bucket)) == Fail(ChildWasRejected)
  {
    assert TextOf(TextWidget("aasdf")) == "aasdf";
    assert TextOf(TextWidget("hello")) == "hello";
    assert ClassName(ImmovableBucket)[0] == 'I';
    assert ClassName(Bucket)[0] == 'B';
  }
}
