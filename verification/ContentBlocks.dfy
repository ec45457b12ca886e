/**
 Conversion of content blocks between versions 1 and 2 of the Agent Client Protocol
 (`crates/acp_thread/src/content.rs`).
 */
module ContentBlocks {
  import opened Options

  type Meta = Option<string>

  const MAX_I64: nat := 0x7FFF_FFFF_FFFF_FFFF

  type i64 = n: int | -0x8000_0000_0000_0000 <= n <= 0x7FFF_FFFF_FFFF_FFFF
  type u64 = n: int | 0 <= n <= 0xFFFF_FFFF_FFFF_FFFF

  /** Both schemas are open: `Unlisted` stands for the variants that this client does not list. */
  datatype RoleV1 = Assistant1 | User1 | UnlistedRole1(name: string)
  datatype RoleV2 = Assistant2 | User2 | OtherRole2(name: string) | UnlistedRole2(name: string)

  datatype AnnotationsV1 = Annotations1(audience: Option<seq<RoleV1>>, lastModified: Option<string>,
                                        priority: Option<real>, meta: Meta)
  datatype AnnotationsV2 = Annotations2(audience: Option<seq<RoleV2>>, lastModified: Option<string>,
                                        priority: Option<real>, meta: Meta)

  datatype ResourceV1 =
    | TextResource1(text: string, uri: string, mimeType: Option<string>, meta: Meta)
    | BlobResource1(blob: string, uri: string, mimeType: Option<string>, meta: Meta)
    | UnlistedResource1(kind: string)
  datatype ResourceV2 =
    | TextResource2(text: string, uri: string, mimeType: Option<string>, meta: Meta)
    | BlobResource2(blob: string, uri: string, mimeType: Option<string>, meta: Meta)
    | UnlistedResource2(kind: string)

  datatype BlockV1 =
    | Text1(text: string, annotations: Option<AnnotationsV1>, meta: Meta)
    | Image1(data: string, mimeType: string, uri: Option<string>, annotations: Option<AnnotationsV1>, meta: Meta)
    | Audio1(data: string, mimeType: string, annotations: Option<AnnotationsV1>, meta: Meta)
    | Link1(name: string, target: string, title: Option<string>, description: Option<string>, mediaType: Option<string>,
            size: Option<i64>, annotations: Option<AnnotationsV1>, meta: Meta)
    | Embedded1(resource: ResourceV1, annotations: Option<AnnotationsV1>, meta: Meta)
    | Unlisted1(kind: string)
  datatype BlockV2 =
    | Text2(text: string, annotations: Option<AnnotationsV2>, meta: Meta)
    | Image2(data: string, mimeType: string, uri: Option<string>, annotations: Option<AnnotationsV2>, meta: Meta)
    | Audio2(data: string, mimeType: string, annotations: Option<AnnotationsV2>, meta: Meta)
    | Link2(name: string, target: string, title: Option<string>, description: Option<string>, mediaType: Option<string>,
            size: Option<u64>, icons: Option<seq<string>>, annotations: Option<AnnotationsV2>, meta: Meta)
    | Embedded2(resource: ResourceV2, annotations: Option<AnnotationsV2>, meta: Meta)
    | Other2(kind: string)
    | Unlisted2(kind: string)

  // ----- roles and annotations; `None` is a rejection -----

  function RoleFromV1(r: RoleV1): Option<RoleV2> {
    match r
    case Assistant1 => Some(Assistant2)
    case User1 => Some(User2)
    case UnlistedRole1(_) => None
  }

  function RoleToV1(r: RoleV2): Option<RoleV1> {
    match r
    case Assistant2 => Some(Assistant1)
    case User2 => Some(User1)
    case OtherRole2(_) => None
    case UnlistedRole2(_) => None
  }

  function RolesFromV1(rs: seq<RoleV1>): Option<seq<RoleV2>> {
    if rs == [] then Some([])
    else
      var first, rest := RoleFromV1(rs[0]), RolesFromV1(rs[1..]);
      if first.None? || rest.None? then None else Some([first.value] + rest.value)
  }

  function RolesToV1(rs: seq<RoleV2>): Option<seq<RoleV1>> {
    if rs == [] then Some([])
    else
      var first, rest := RoleToV1(rs[0]), RolesToV1(rs[1..]);
      if first.None? || rest.None? then None else Some([first.value] + rest.value)
  }

  function AnnotationsFromV1(a: Option<AnnotationsV1>): Option<Option<AnnotationsV2>> {
    if a.None? then Some(None)
    else if a.value.audience.None?
    then Some(Some(Annotations2(None, a.value.lastModified, a.value.priority, a.value.meta)))
    else
      var roles := RolesFromV1(a.value.audience.value);
      if roles.None? then None
      else Some(Some(Annotations2(roles, a.value.lastModified, a.value.priority, a.value.meta)))
  }

  function AnnotationsToV1(a: Option<AnnotationsV2>): Option<Option<AnnotationsV1>> {
    if a.None? then Some(None)
    else if a.value.audience.None?
    then Some(Some(Annotations1(None, a.value.lastModified, a.value.priority, a.value.meta)))
    else
      var roles := RolesToV1(a.value.audience.value);
      if roles.None? then None
      else Some(Some(Annotations1(roles, a.value.lastModified, a.value.priority, a.value.meta)))
  }

  // ----- blocks -----

  function ResourceFromV1(r: ResourceV1): Option<ResourceV2> {
    match r
    case TextResource1(text, uri, mime, meta) => Some(TextResource2(text, uri, mime, meta))
    case BlobResource1(blob, uri, mime, meta) => Some(BlobResource2(blob, uri, mime, meta))
    case UnlistedResource1(_) => None
  }

  function ResourceToV1(r: ResourceV2): Option<ResourceV1> {
    match r
    case TextResource2(text, uri, mime, meta) => Some(TextResource1(text, uri, mime, meta))
    case BlobResource2(blob, uri, mime, meta) => Some(BlobResource1(blob, uri, mime, meta))
    case UnlistedResource2(_) => None
  }

  function SizeFromV1(size: Option<i64>): Option<u64> {
    if size.Some? && size.value >= 0 then Some(size.value) else None
  }

  function SizeToV1(size: Option<u64>): Option<i64> {
    if size.Some? && size.value <= MAX_I64 then Some(size.value) else None
  }

  function FromV1(b: BlockV1): Option<BlockV2> {
    if b.Unlisted1? then None
    else
      var a := AnnotationsFromV1(b.annotations);
      if a.None? then None
      else match b
           case Text1(text, _, meta) => Some(Text2(text, a.value, meta))
           case Image1(data, mime, uri, _, meta) => Some(Image2(data, mime, uri, a.value, meta))
           case Audio1(data, mime, _, meta) => Some(Audio2(data, mime, a.value, meta))
           case Link1(name, target, title, description, media, size, _, meta) =>
             Some(Link2(name, target, title, description, media, SizeFromV1(size), None, a.value, meta))
           case Embedded1(resource, _, meta) =>
             var r := ResourceFromV1(resource);
             if r.None? then None else Some(Embedded2(r.value, a.value, meta))
  }

  function ToV1(b: BlockV2): Option<BlockV1> {
    if b.Other2? || b.Unlisted2? then None
    else
      var a := AnnotationsToV1(b.annotations);
      if a.None? then None
      else match b
           case Text2(text, _, meta) => Some(Text1(text, a.value, meta))
           case Image2(data, mime, uri, _, meta) => Some(Image1(data, mime, uri, a.value, meta))
           case Audio2(data, mime, _, meta) => Some(Audio1(data, mime, a.value, meta))
           case Link2(name, target, title, description, media, size, icons, _, meta) =>
             if icons.Some? && icons.value != [] then None
             else Some(Link1(name, target, title, description, media, SizeToV1(size), a.value, meta))
           case Embedded2(resource, _, meta) =>
             var r := ResourceToV1(resource);
             if r.None? then None else Some(Embedded1(r.value, a.value, meta))
  }

  /** `can_convert_to_v1`: the cheap test. */
  predicate CanConvertToV1(b: BlockV2) {
    && !b.Other2? && !b.Unlisted2?
    && (b.Link2? ==> b.icons.None? || b.icons.value == [])
    && (b.Embedded2? ==> !b.resource.UnlistedResource2?)
    && (b.annotations.Some? && b.annotations.value.audience.Some? ==>
          forall i :: 0 <= i < |b.annotations.value.audience.value| ==>
                        b.annotations.value.audience.value[i] in {Assistant2, User2})
  }

  function PromptToV1(blocks: seq<BlockV2>): Option<seq<BlockV1>> {
    if blocks == [] then Some([])
    else
      var first, rest := ToV1(blocks[0]), PromptToV1(blocks[1..]);
      if first.None? || rest.None? then None else Some([first.value] + rest.value)
  }

  predicate PromptIsValidForV1(blocks: seq<BlockV2>) {
    forall i :: 0 <= i < |blocks| ==> CanConvertToV1(blocks[i])
  }

  // ----- the test agrees with the conversion -----

  lemma {:induction false} RolesConvert(rs: seq<RoleV2>)
    ensures RolesToV1(rs).Some? <==> forall i :: 0 <= i < |rs| ==> rs[i] in {Assistant2, User2}
  {
    if rs != [] {
      RolesConvert(rs[1..]);
      assert forall i :: 1 <= i < |rs| ==> rs[i] == rs[1..][i - 1];
    }
  }

  /** The cheap test holds exactly if the conversion succeeds. */
  lemma {:induction false} TestIsExact(b: BlockV2)
    ensures CanConvertToV1(b) <==> ToV1(b).Some?
  {
    if !b.Other2? && !b.Unlisted2? && b.annotations.Some? && b.annotations.value.audience.Some? {
      RolesConvert(b.annotations.value.audience.value);
    }
  }

  /** The prompt check passes exactly the prompts that convert, block by block and in order. */
  lemma {:induction false} PreflightIsExact(blocks: seq<BlockV2>)
    ensures PromptIsValidForV1(blocks) <==> PromptToV1(blocks).Some?
    ensures PromptToV1(blocks).Some? ==>
              |PromptToV1(blocks).value| == |blocks|
              && forall i :: 0 <= i < |blocks| ==> ToV1(blocks[i]) == Some(PromptToV1(blocks).value[i])
  {
    if blocks != [] {
      TestIsExact(blocks[0]);
      PreflightIsExact(blocks[1..]);
      assert forall i :: 1 <= i < |blocks| ==> blocks[i] == blocks[1..][i - 1];
    }
  }

  // ----- round trips -----

  lemma {:induction false} RolesRoundTripV1(rs: seq<RoleV1>)
    ensures RolesFromV1(rs).Some? ==> RolesToV1(RolesFromV1(rs).value) == Some(rs)
  {
    if rs != [] && RolesFromV1(rs).Some? {
      RolesRoundTripV1(rs[1..]);
      var up := RolesFromV1(rs).value;
      assert up[1..] == RolesFromV1(rs[1..]).value && rs == [rs[0]] + rs[1..];
    }
  }

  lemma {:induction false} RolesRoundTripV2(rs: seq<RoleV2>)
    ensures RolesToV1(rs).Some? ==> RolesFromV1(RolesToV1(rs).value) == Some(rs)
  {
    if rs != [] && RolesToV1(rs).Some? {
      RolesRoundTripV2(rs[1..]);
      var down := RolesToV1(rs).value;
      assert down[1..] == RolesToV1(rs[1..]).value && rs == [rs[0]] + rs[1..];
    }
  }

  lemma {:induction false} AnnotationsRoundTripV1(a: Option<AnnotationsV1>)
    ensures AnnotationsFromV1(a).Some? ==> AnnotationsToV1(AnnotationsFromV1(a).value) == Some(a)
  {
    if a.Some? && a.value.audience.Some? {
      RolesRoundTripV1(a.value.audience.value);
    }
  }

  lemma {:induction false} AnnotationsRoundTripV2(a: Option<AnnotationsV2>)
    ensures AnnotationsToV1(a).Some? ==> AnnotationsFromV1(AnnotationsToV1(a).value) == Some(a)
  {
    if a.Some? && a.value.audience.Some? {
      RolesRoundTripV2(a.value.audience.value);
    }
  }

  /** What version 2 cannot hold of a version 1 block: a negative size. */
  function NormalV1(b: BlockV1): BlockV1 {
    if b.Link1? && b.size.Some? && b.size.value < 0 then b.(size := None) else b
  }

  /** What version 1 cannot hold of a convertible version 2 block: an empty icon list, and a size beyond its range. */
  function NormalV2(b: BlockV2): BlockV2 {
    if b.Link2? then b.(icons := None, size := if b.size.Some? && b.size.value > MAX_I64 then None else b.size) else b
  }

  /** Up and down again is the identity but for negative sizes. */
  lemma {:induction false} RoundTripV1(b: BlockV1)
    ensures FromV1(b).Some? ==> ToV1(FromV1(b).value) == Some(NormalV1(b))
  {
    if !b.Unlisted1? {
      AnnotationsRoundTripV1(b.annotations);
    }
  }

  /** Down and up again is the identity but for empty icon lists and sizes beyond the shared range. */
  lemma {:induction false} RoundTripV2(b: BlockV2)
    ensures ToV1(b).Some? ==> FromV1(ToV1(b).value) == Some(NormalV2(b))
  {
    if !b.Other2? && !b.Unlisted2? {
      AnnotationsRoundTripV2(b.annotations);
    }
  }

  /** A second round trip changes nothing more. */
  lemma {:induction false} SecondRoundTrip(b: BlockV2, c: BlockV1)
    ensures ToV1(b).Some? ==> ToV1(NormalV2(b)) == ToV1(b) && NormalV2(NormalV2(b)) == NormalV2(b)
    ensures FromV1(c).Some? ==> FromV1(NormalV1(c)) == FromV1(c) && NormalV1(NormalV1(c)) == NormalV1(c)
  {
  }

  // ----- what both versions of a block have in common -----

  predicate SameRole(a: RoleV1, b: RoleV2) {
    (a.Assistant1? && b.Assistant2?) || (a.User1? && b.User2?)
  }

  predicate SameAnnotations(a: Option<AnnotationsV1>, b: Option<AnnotationsV2>) {
    && (a.Some? <==> b.Some?)
    && (a.Some? && b.Some? ==>
          && a.value.lastModified == b.value.lastModified && a.value.priority == b.value.priority
          && a.value.meta == b.value.meta && (a.value.audience.Some? <==> b.value.audience.Some?)
          && (a.value.audience.Some? && b.value.audience.Some? ==>
                && |a.value.audience.value| == |b.value.audience.value|
                && forall i :: 0 <= i < |a.value.audience.value| ==>
                                 SameRole(a.value.audience.value[i], b.value.audience.value[i])))
  }

  predicate SameResource(a: ResourceV1, b: ResourceV2) {
    && (a.TextResource1? <==> b.TextResource2?) && (a.BlobResource1? <==> b.BlobResource2?)
    && (a.TextResource1? || a.BlobResource1?)
    && (a.TextResource1? && b.TextResource2? ==>
          a.text == b.text && a.uri == b.uri && a.mimeType == b.mimeType && a.meta == b.meta)
    && (a.BlobResource1? && b.BlobResource2? ==>
          a.blob == b.blob && a.uri == b.uri && a.mimeType == b.mimeType && a.meta == b.meta)
  }

  /** The sizes that both versions can hold are the same; any other is absent on the other side. */
  predicate SameSize(a: Option<i64>, b: Option<u64>) {
    && (a.Some? && a.value >= 0 ==> b.Some? && b.value == a.value)
    && (b.Some? && b.value < 0x8000_0000_0000_0000 ==> a.Some? && a.value == b.value)
    && (a.Some? && a.value < 0 ==> b.None?) && (b.Some? && b.value >= 0x8000_0000_0000_0000 ==> a.None?)
  }

  /** The same block in both versions, field by field. */
  predicate SameBlock(a: BlockV1, b: BlockV2) {
    && (a.Text1? <==> b.Text2?) && (a.Image1? <==> b.Image2?) && (a.Audio1? <==> b.Audio2?)
    && (a.Link1? <==> b.Link2?) && (a.Embedded1? <==> b.Embedded2?)
    && !a.Unlisted1? && !b.Unlisted2? && !b.Other2?
    && SameAnnotations(a.annotations, b.annotations) && a.meta == b.meta
    && (a.Text1? && b.Text2? ==> a.text == b.text)
    && (a.Image1? && b.Image2? ==> a.data == b.data && a.mimeType == b.mimeType && a.uri == b.uri)
    && (a.Audio1? && b.Audio2? ==> a.data == b.data && a.mimeType == b.mimeType)
    && (a.Link1? && b.Link2? ==>
          && a.name == b.name && a.target == b.target && a.title == b.title && a.description == b.description
          && a.mediaType == b.mediaType && SameSize(a.size, b.size) && (b.icons.None? || b.icons.value == []))
    && (a.Embedded1? && b.Embedded2? ==> SameResource(a.resource, b.resource))
  }

  lemma {:induction false} RolesToSame(rs: seq<RoleV2>)
    ensures RolesToV1(rs).Some? ==>
              |RolesToV1(rs).value| == |rs| && forall i :: 0 <= i < |rs| ==> SameRole(RolesToV1(rs).value[i], rs[i])
  {
    if rs != [] {
      RolesToSame(rs[1..]);
    }
  }

  lemma {:induction false} RolesFromSame(rs: seq<RoleV1>)
    ensures RolesFromV1(rs).Some? ==>
              |RolesFromV1(rs).value| == |rs| && forall i :: 0 <= i < |rs| ==> SameRole(rs[i], RolesFromV1(rs).value[i])
  {
    if rs != [] {
      RolesFromSame(rs[1..]);
    }
  }

  lemma {:induction false} AnnotationsSame(a: Option<AnnotationsV1>, b: Option<AnnotationsV2>)
    ensures AnnotationsFromV1(a).Some? ==> SameAnnotations(a, AnnotationsFromV1(a).value)
    ensures AnnotationsToV1(b).Some? ==> SameAnnotations(AnnotationsToV1(b).value, b)
  {
    if a.Some? && a.value.audience.Some? {
      RolesFromSame(a.value.audience.value);
    }
    if b.Some? && b.value.audience.Some? {
      RolesToSame(b.value.audience.value);
    }
  }

  /** Converting up gives the same block, field by field, and fails exactly for variants that are not listed. */
  lemma {:induction false} UpIsSame(a: BlockV1)
    ensures FromV1(a).Some? ==> SameBlock(a, FromV1(a).value)
    ensures FromV1(a).Some? <==> IsListed(a)
  {
    if !a.Unlisted1? {
      AnnotationsSame(a.annotations, None);
      if a.annotations.Some? && a.annotations.value.audience.Some? {
        RolesConvertUp(a.annotations.value.audience.value);
      }
    }
  }

  predicate IsListed(a: BlockV1) {
    && !a.Unlisted1? && (a.Embedded1? ==> !a.resource.UnlistedResource1?)
    && (a.annotations.Some? && a.annotations.value.audience.Some? ==>
          forall i :: 0 <= i < |a.annotations.value.audience.value| ==>
                        !a.annotations.value.audience.value[i].UnlistedRole1?)
  }

  lemma {:induction false} RolesConvertUp(rs: seq<RoleV1>)
    ensures RolesFromV1(rs).Some? <==> forall i :: 0 <= i < |rs| ==> !rs[i].UnlistedRole1?
  {
    if rs != [] {
      RolesConvertUp(rs[1..]);
      assert forall i :: 1 <= i < |rs| ==> rs[i] == rs[1..][i - 1];
    }
  }

  /** Converting down gives the same block, field by field. */
  lemma {:induction false} DownIsSame(b: BlockV2)
    ensures ToV1(b).Some? ==> SameBlock(ToV1(b).value, b)
  {
    if !b.Other2? && !b.Unlisted2? {
      AnnotationsSame(None, b.annotations);
    }
  }
}
