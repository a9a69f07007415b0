/**
 * The tag repository: tags are keyed by a unique name; creating an existing
 * name hands back the existing tag, and deleting a tag whose task
 * collection is present needs `force`.
 */
module TagRepository {
  import opened Entities
  import opened Tables
  import opened Store

  class TagRepository {
    const context: KanbanContext

    constructor (context: KanbanContext)
      ensures this.context == context
    {
      this.context := context;
    }

    /**
     * Creates a tag called `tag.name` unless one exists; on Conflict the
     * existing tag's id is returned and nothing changes.
     */
    method Create(tag: TagCreateDTO) returns (response: Response, tagId: Id)
      requires context.Valid()
      modifies context`tags, context`nextTagId
      ensures context.Valid()
      ensures (exists i | 0 <= i < |old(context.tags)| :: old(context.tags)[i].name == tag.name) ==>
        && response == Conflict
        && (exists i | 0 <= i < |old(context.tags)| :: old(context.tags)[i].name == tag.name && old(context.tags)[i].id == tagId)
        && context.tags == old(context.tags) && context.nextTagId == old(context.nextTagId)
      ensures (forall i | 0 <= i < |old(context.tags)| :: old(context.tags)[i].name != tag.name) ==>
        && response == Created
        && tagId == old(context.nextTagId)
        && context.tags == old(context.tags) + [Tag(tagId, tag.name, None)]
        && context.nextTagId == old(context.nextTagId) + 1
      ensures Read(tagId) == Some(TagDTO(tagId, tag.name))
    {
      var entity := FirstIndex(context.tags, TagHasName(tag.name));
      if entity.None? {
        tagId := context.nextTagId;
        TagsValidAppend(context.tags, context.nextTagId, Tag(tagId, tag.name, None));
        context.tags := context.tags + [Tag(tagId, tag.name, None)];
        context.nextTagId := context.nextTagId + 1;
        response := Created;
        FirstIndexOfOnly(context.tags, TagHasId(tagId), |context.tags| - 1);
      } else {
        tagId := context.tags[entity.value].id;
        response := Conflict;
        FirstIndexOfOnly(context.tags, TagHasId(tagId), entity.value);
      }
    }

    /**
     * Deletes the tag `tagId`. A tag whose task collection is present (even
     * an empty one) is in use and is only deleted when `force` is set.
     */
    method Delete(tagId: Id, force: bool) returns (response: Response)
      requires context.Valid()
      modifies context`tags
      ensures context.Valid()
      ensures var k := FirstIndex(old(context.tags), TagHasId(tagId));
        match k
        case None =>
          response == NotFound && context.tags == old(context.tags)
        case Some(i) =>
          if old(context.tags)[i].tasks.Some? && !force then
            response == Conflict && context.tags == old(context.tags)
          else
            response == Deleted && context.tags == old(context.tags)[..i] + old(context.tags)[i + 1..]
      ensures response == Deleted ==> Read(tagId).None?
    {
      var entity := FirstIndex(context.tags, TagHasId(tagId));
      if entity.Some? {
        var i := entity.value;
        if context.tags[i].tasks.Some? {
          if !force {
            response := Conflict;
          } else {
            TagsValidRemove(context.tags, context.nextTagId, i);
            context.tags := context.tags[..i] + context.tags[i + 1..];
            response := Deleted;
          }
        } else {
          TagsValidRemove(context.tags, context.nextTagId, i);
          context.tags := context.tags[..i] + context.tags[i + 1..];
          response := Deleted;
        }
      } else {
        response := NotFound;
      }
    }

    /** The view of tag `tagId`, or None when there is no such tag. */
    function Read(tagId: Id): (r: Option<TagDTO>)
      reads context
      ensures r.None? <==> forall i | 0 <= i < |context.tags| :: context.tags[i].id != tagId
      ensures r.Some? ==>
        && r.value.id == tagId
        && exists i | 0 <= i < |context.tags| :: context.tags[i].id == tagId && context.tags[i].name == r.value.name
    {
      match FirstIndex(context.tags, TagHasId(tagId))
      case None => None
      case Some(k) => Some(TagDTO(context.tags[k].id, context.tags[k].name))
    }

    /** One view per stored tag, in store order. */
    function ReadAll(): (r: seq<TagDTO>)
      reads context
      ensures |r| == |context.tags|
      ensures forall i | 0 <= i < |r| :: r[i].id == context.tags[i].id && r[i].name == context.tags[i].name
    {
      var tags := context.tags;
      seq(|tags|, i requires 0 <= i < |tags| => TagDTO(tags[i].id, tags[i].name))
    }

    /**
     * Renames tag `tag.id`. Conflict when a different tag already has the
     * name; keeping a tag's own name is allowed.
     */
    method Update(tag: TagUpdateDTO) returns (response: Response)
      requires context.Valid()
      modifies context`tags
      ensures context.Valid()
      ensures var k := FirstIndex(old(context.tags), TagHasId(tag.id));
        match k
        case None =>
          response == NotFound && context.tags == old(context.tags)
        case Some(i) =>
          if exists j | 0 <= j < |old(context.tags)| :: old(context.tags)[j].id != tag.id && old(context.tags)[j].name == tag.name then
            response == Conflict && context.tags == old(context.tags)
          else
            response == Updated && context.tags == old(context.tags)[i := old(context.tags)[i].(name := tag.name)]
      ensures response == Updated ==> Read(tag.id) == Some(TagDTO(tag.id, tag.name))
    {
      var entity := FirstIndex(context.tags, TagHasId(tag.id));
      if entity.None? {
        response := NotFound;
      } else if FirstIndex(context.tags, OtherHasName(tag.id, tag.name)).Some? {
        response := Conflict;
      } else {
        var i := entity.value;
        var renamed := context.tags[i].(name := tag.name);
        TagsValidReplace(context.tags, context.nextTagId, i, renamed);
        context.tags := context.tags[i := renamed];
        response := Updated;
      }
    }
  }
}
