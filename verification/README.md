# Tesseract 2.03 core: lists, error codes, boxes and micro-features

This project models, in Dafny, the parts of Tesseract 2.03 that the
adaptive classifier's micro-feature path rests on:

- the intrusive circular lists `ELIST` and `ELIST2` of `ccutil`: their links,
  their iterators (forward, backward, data_relative, move_to_last, exchange,
  extract_sublist), and the whole-list operations built on them (clear,
  deep copy, length, sort, assign_to_sublist, de_dump);
- the error reporting of `ERRCODE::error` and the `ASSERT_HOST` macro;
- the integer bounding box `TBOX`;
- the bit layout of the integer prototype and class pruners in `intproto.h`;
- the feature-definition registry and the character-description reader and
  writer in `featdefs.cpp`;
- the micro-feature outline pipeline of `mfoutline.cpp`: conversion of
  polygonal and chain-coded outlines, direction finding, edge-noise
  filtering, direction-change marking, baseline and character normalisation,
  blob centre;
- pico-feature extraction in `picofeat.cpp`.

A list is modelled by its pointers: a map `Links` from each link (a natural
number) to its `next` link, a map `Prevs` for `ELIST2`'s `prev` pointers, and
the list's `last` pointer as an `Option`. The ghost predicates `ERing.Holds`
and `EList2Iterator.Holds2` say that these pointers hold a given sequence of
distinct links, so every list operation is stated as what it does to that
sequence. An iterator is the datatype `EListIterator.Iter` with the same
fields as `ELIST_ITERATOR`: prev, current, next, the cycle point, and the
started-cycling, ex-current-was-last and ex-current-was-cycle-point flags.
`ELIST2`'s clear, length and forward walk only the `next` pointers exactly as
`ELIST`'s do, so the `ELIST` members model them too.

An outline of micro-feature edge points is a sequence of `MfOutline.EdgePt`
read as a ring: position `k` is followed by `Circular.Succ(k, |o|)`. Floats
are modelled as Dafny reals.

## Model

| member | source | states |
|---|---|---|
| ERing.RotationRing | ccutil/elst.cpp:576-591 | Reading a ring from any of its links gives a ring over the same pointers. |
| EList.AppendLink | ccutil/elst.cpp:116 | Adding a link to the end makes it the list's last link. |
| EList.AppendHolds | ccutil/elst.cpp:116 | Adding a link that is not on the list to its end gives the list extended by that link. |
| EList.Length | ccutil/elst.cpp:157-169 | The count returned is the number of elements on the list. |
| EList.BrokenCircle | ccutil/elst.cpp:78-82 | Cutting the circle at the last link leaves a chain starting at the first. |
| EList.ZapChain | ccutil/elst.cpp:82-86 | The zapper is applied to every element of the chain, in list order, each once. |
| EList.InternalClear | ccutil/elst.cpp:66-88 | Every element is zapped in list order, the list becomes empty, and only the last link's pointer is removed from the map. |
| EList.CopyStep | ccutil/elst.cpp:115-116 | One pass of the copy loop appends the copy of the next source element and leaves the source list intact. |
| EList.InternalDeepCopy | ccutil/elst.cpp:100-117 | The destination holds the copier's image of each source element, in source order, and the source list is unchanged. |
| EList.InsertPermutes | ccutil/elst.cpp:207 | Inserting an element adds exactly that element to the multiset. |
| EList.InsertSorted | ccutil/elst.cpp:207 | Inserting into a sorted sequence keeps it sorted. |
| EList.SortPermutes | ccutil/elst.cpp:207 | The sort of the pointer array is a permutation of it and is sorted by the comparator's key. |
| EList.ExtractAll | ccutil/elst.cpp:196-204 | Extracting every element in turn yields the list's elements in list order. |
| EList.Rebuild | ccutil/elst.cpp:209-214 | Adding the sorted pointers to the end of an empty list yields a list holding exactly them, in that order. |
| EList.Sort | ccutil/elst.cpp:180-216 | The list ends up holding a permutation of its own elements, ordered by the key. |
| EList.AssignToSublist | ccutil/elst.cpp:133-148 | A non-empty destination is an error; otherwise the destination receives the inclusive range from start to end, with end as its last, and the source keeps the rest. |
| EListIterator.Forward | ccutil/elst.cpp:316-347 | On an empty list nothing moves and nothing is returned; otherwise the returned element is the new current one, taken from the old next. |
| EListIterator.ForwardAt | ccutil/elst.cpp:326-336 | From position i the iterator lands on the position after i, wrapping round, and a cycle has started. |
| EListIterator.ForwardGap | ccutil/elst.cpp:331-336 | After an extraction the iterator lands on the element after the gap, which becomes the cycle point if the extracted element was the cycle point. |
| EListIterator.DataRelativeAt | ccutil/elst.cpp:374-377 | From position i, the element offset places ahead is the one at position i + offset modulo the length. |
| EListIterator.DataRelativeGap | ccutil/elst.cpp:374-377 | After an extraction, offsets count from the element before the gap. |
| EListIterator.MoveToLast | ccutil/elst.cpp:396-408 | The element returned is the list's last one and the iterator stands on it, at the last position; on an empty list nothing moves. |
| EListIterator.ExchangeAsWritten | ccutil/elst.cpp:421-508 | Nothing changes on an empty list or when both iterators are on one element; exchanging with an extracted element is the DONT_EXCHANGE_DELETED error; otherwise the pointer writes of the source are applied. |
| EListIterator.Exchange | ccutil/elst.cpp:442-507 | The corrected exchange has the same outcomes and error cases as the source's. |
| EListIterator.ExchangeSwaps | ccutil/elst.cpp:442-507 | The corrected exchange leaves each list reading as before with the two elements in each other's places, and each iterator where it stood, now on the other's former element. |
| EListIterator.ExchangeAsWrittenAgrees | ccutil/elst.cpp:451-507 | Except in the two cases under Findings, the source's exchange is the corrected one. |
| EListIterator.ExchangeWithSingletonBreaksList | ccutil/elst.cpp:483-488 | Exchanging the only element 1 of the list [1] with the element 2 of the list [2, 3] makes 2 the first list's last, but following next from 2 never comes back to 2, so the first list is no longer a ring. |
| EListIterator.ExchangeWithSingletonCorrected | ccutil/elst.cpp:483-488 | On the same input the corrected exchange yields the one-element list [2] and the list [1, 3]. |
| EListIterator.ExchangeAtLastRotatesList | ccutil/elst.cpp:493-496 | Exchanging within the list 1, 2, 3 with the first iterator on the last element leaves the list reading 2, 1, 3 instead of 3, 2, 1. |
| EListIterator.ExchangeAtLastKeepsLast | ccutil/elst.cpp:493-496 | With this iterator on the last element, the last pointer stays on that element, which the exchange moves away from the end. |
| EListIterator.ExchangeAtLastCorrected | ccutil/elst.cpp:493-496 | On the same input the corrected exchange yields the list 3, 2, 1. |
| EListIterator.WalkSublist | ccutil/elst.cpp:556-574 | The walk reaches the other iterator's element exactly when that element is on the list, and then it has walked the inclusive range from this iterator's element to it. |
| EListIterator.Extracted | ccutil/elst.cpp:576-591 | Closing the walked range makes it a ring of its own and closes the rest of the list round the gap. |
| EListIterator.ExtractSublist | ccutil/elst.cpp:521-593 | The sublist from this element to the other's, inclusive, becomes a list ending at the other's element; the rest stays a list, or the source becomes empty when the sublist was all of it; both iterators are left on the gap. |
| EList2.AppendLink2 | ccutil/elst2.cpp:186-190 | Adding a link to the end of a doubly linked list makes it the last link. |
| EList2.AppendHolds2 | ccutil/elst2.cpp:186-190 | Adding a link that is not on the list extends the list by it in both directions. |
| EList2.CopyStep2 | ccutil/elst2.cpp:91-92 | One pass of the copy loop appends the copy of the next source element in both directions and leaves the source intact. |
| EList2.InternalDeepCopy2 | ccutil/elst2.cpp:78-93 | The destination holds the copies of the source elements in source order in both directions, and the source is unchanged. |
| EList2.Rebuild2 | ccutil/elst2.cpp:185-190 | Adding the sorted pointers to the end of an empty list yields a doubly linked list holding exactly them, in that order. |
| EList2.Sort2 | ccutil/elst2.cpp:157-192 | The list ends up holding a permutation of its own elements, ordered by the key, in both directions. |
| EList2.Forgotten | ccutil/elst2.cpp:273-276 | Clearing the stale pointers of a link that is not on the list keeps the list. |
| EList2.InternalDeDump | ccutil/elst2.cpp:258-279 | The list ends up holding the first count elements read, in order, in both directions; a count of zero or less leaves it empty. |
| EList2.AssignToSublist2 | ccutil/elst2.cpp:109-124 | A non-empty destination is an error; otherwise the destination receives the inclusive range from start to end in both directions, and the source keeps the rest. |
| EList2Iterator.Backward | ccutil/elst2.cpp:335-366 | On an empty list nothing moves and nothing is returned; otherwise the returned element is the new current one, taken from the old prev. |
| EList2Iterator.BackwardAt | ccutil/elst2.cpp:342-355 | From position i the iterator lands on the position before i, the last one before the first, and a cycle has started. |
| EList2Iterator.BackwardGap | ccutil/elst2.cpp:350-355 | After an extraction the iterator lands on the element before the gap, which becomes the cycle point if the extracted element was the cycle point. |
| EList2Iterator.BackwardUndoesForward | ccutil/elst2.cpp:294-366 | From a position on the list a step forward followed by a step backward restores prev, current, next and the cycle point. |
| EList2Iterator.ForwardUndoesBackward | ccutil/elst2.cpp:294-366 | A step backward followed by a step forward restores the same fields. |
| EList2Iterator.DataRelative2At | ccutil/elst2.cpp:376-400 | A negative offset walks back that many places round the ring; any other walks forward. |
| EList2Iterator.DataRelative2Gap | ccutil/elst2.cpp:388-392 | After an extraction, negative offsets count from the element after the gap and the others from the element before it. |
| EList2Iterator.LookBackAgain | ccutil/elst2.cpp:388-392 | Looking m places ahead and then m places back returns to the current element. |
| EList2Iterator.ExchangeAsWritten2 | ccutil/elst2.cpp:413-512 | The error and no-op cases are those of the singly linked exchange; otherwise the source's next and prev writes are applied. |
| EList2Iterator.Exchange2 | ccutil/elst2.cpp:448-511 | The corrected exchange has the same outcomes and error cases as the source's. |
| EList2Iterator.Exchange2Swaps | ccutil/elst2.cpp:448-511 | The corrected exchange leaves each list reading as before, in both directions, with the two elements in each other's places, and each iterator on the other's former element. |
| EList2Iterator.ExchangeAsWritten2Agrees | ccutil/elst2.cpp:448-511 | Except in the two cases under Findings, the source's doubly linked exchange is the corrected one. |
| EList2Iterator.ExchangeWithSingletonBreaksList2 | ccutil/elst2.cpp:483-492 | Exchanging the only element 1 of the list [1] with the element 2 of the list [2, 3] leaves 2's next and prev both pointing to 1, so the first list does not hold [2]. |
| EList2Iterator.ExchangeWithSingletonCorrected2 | ccutil/elst2.cpp:483-492 | On the same input the corrected exchange yields the list [2] and the list [1, 3], in both directions. |
| EList2Iterator.ExchangeAtLastRotatesList2 | ccutil/elst2.cpp:497-500 | Exchanging within the list 1, 2, 3 with the first iterator on the last element leaves the list reading 2, 1, 3 in both directions. |
| EList2Iterator.ExchangeAtLastCorrected2 | ccutil/elst2.cpp:497-500 | On the same input the corrected exchange yields the list 3, 2, 1. |
| EList2Iterator.ExtractSublist2 | ccutil/elst2.cpp:525-602 | As for the singly linked list, and both the sublist and the rest come out closed in the prev direction too. |
| ErrCode.ActionsDistinct | ccutil/errcode.h:26-29 | The four error actions are distinct codes. |
| ErrCode.AbortCodesDistinct | ccutil/errcode.h:32-35 | The abort codes are 0, 1, 2 and 3. |
| ErrCode.LocationCodesFit | ccutil/errcode.h:38-54 | Every location code fits in the five bits set aside for it. |
| ErrCode.Find | ccutil/errcode.cpp:80-90 | The search finds the first occurrence of a substring from a given index, or reports that there is none. |
| ErrCode.ErrorTextLayout | ccutil/errcode.cpp:54-77 | The report is the caller and a colon when there is a caller, then "Error:", the message, then ":" and the detail when there is a detail, then a newline. |
| ErrCode.ErrorTextDeterminesMessage | ccutil/errcode.cpp:54-77 | For a fixed caller and detail, two messages giving the same report are the same message. |
| ErrCode.AbortCodeFor | ccutil/errcode.cpp:80-90 | The abort code is FILE_ABORT when the message mentions "File" or "file", else LIST_ABORT for "List" or "list", else MEMORY_ABORT for "Memory" or "memory", else none. |
| ErrCode.EveryAbortCodeIsReachable | ccutil/errcode.cpp:80-90 | Each abort code is produced by some message. |
| ErrCode.NoKeywordLetters | ccutil/errcode.cpp:80-90 | A message without the letters that start the keywords gets no abort code. |
| ErrCode.IllegalActionText | ccutil/errcode.cpp:101 | An illegal action reports "error:Error:Illegal error action". |
| ErrCode.Error | ccutil/errcode.cpp:43-103 | The report is printed first; DBG and TESSLOG return, EXIT exits, ABORT and an unknown action abort; a known action classifies the message, an unknown one also reports the illegal action. |
| ErrCode.IllegalActionClearsAbortCode | ccutil/errcode.cpp:79-101 | An unknown action leaves no abort code. |
| ErrCode.ReportOnlyStillClassifies | ccutil/errcode.cpp:79-95 | The reporting-only actions still classify the message and return. |
| ErrCode.AssertTextLayout | ccutil/errcode.h:83-87 | A failed assertion reports the expression as caller, the assertion message, and the file and line as detail. |
| ErrCode.AssertHost | ccutil/errcode.h:83-87 | Nothing is reported exactly when the condition holds; a failed condition is reported with the TESSLOG action and returns. |
| ErrCode.FailedAssertionContinues | ccutil/errcode.h:81-87 | A failed assertion does not stop the program and leaves no abort code. |
| Rect.NullTBox | ccstruct/rect.h:32-44 | The default box is null and has width, height and area 0. |
| Rect.TBox.BotRight | ccstruct/rect.h:67-69 | The bottom-right corner has the right edge's x and the bottom edge's y. |
| Rect.TBox.TopLeft | ccstruct/rect.h:71-73 | The top-left corner has the left edge's x and the top edge's y. |
| Rect.TBox.Height | ccstruct/rect.h:80-85 | The height is never negative and is 0 for a null box. |
| Rect.TBox.Width | ccstruct/rect.h:87-92 | The width is never negative and is 0 for a null box. |
| Rect.TBox.Area | ccstruct/rect.h:94-99 | The area is never negative, and is 0 exactly when the box is null or has no width or no height. |
| Rect.TBox.MoveBottomEdge | ccstruct/rect.h:101-104 | Only the bottom edge moves, by the given amount. |
| Rect.TBox.MoveLeftEdge | ccstruct/rect.h:106-109 | Only the left edge moves, by the given amount. |
| Rect.TBox.MoveRightEdge | ccstruct/rect.h:111-114 | Only the right edge moves, by the given amount. |
| Rect.TBox.MoveTopEdge | ccstruct/rect.h:116-119 | Only the top edge moves, by the given amount. |
| Rect.TBox.Move | ccstruct/rect.h:121-125 | Both corners move by the vector. |
| Rect.MovePreservesShape | ccstruct/rect.h:121-125 | Moving keeps nullness, width, height and area, and moving back by the opposite vector restores the box. |
| Rect.MoveTranslatesPoints | ccstruct/rect.h:121-125 | A moved box covers exactly the moved points of the original. |
| Rect.NullMeansEmpty | ccstruct/rect.h:42-44 | A box is null exactly when it covers no integer point. |
| Rect.MeasuresOfNonNull | ccstruct/rect.h:80-99 | For a non-null box, left plus width is right, bottom plus height is top, and the area is width times height. |
| Rect.ContainsPointAgreesWithCovers | ccstruct/rect.h:236-240 | The point-containment test agrees with covering for integer points. |
| Rect.ContainsMeansSubset | ccstruct/rect.h:248-250 | A box contains a non-null box exactly when it covers every point the inner box covers. |
| Rect.ContainsReflexive | ccstruct/rect.h:248-250 | A non-null box contains itself. |
| Rect.ContainsTransitive | ccstruct/rect.h:248-250 | Containment of non-null boxes is transitive. |
| Rect.ContainsImpliesOverlap | ccstruct/rect.h:248-264 | A box that contains a non-null box overlaps it, both ways round. |
| Rect.OverlapSymmetric | ccstruct/rect.h:258-264 | Overlap is symmetric. |
| Rect.SharedEdgeOverlaps | ccstruct/rect.h:258-264 | Boxes that only share an edge count as overlapping. |
| Rect.OverlapMeansCommonPoint | ccstruct/rect.h:258-264 | Two non-null boxes overlap exactly when some integer point is covered by both. |
| Rect.MajorOverlapSymmetric | ccstruct/rect.h:271-284 | Major overlap is symmetric. |
| Rect.MajorOverlapImpliesOverlap | ccstruct/rect.h:271-284 | Major overlap implies overlap. |
| Rect.ContainsImpliesMajorOverlap | ccstruct/rect.h:271-284 | A non-null box inside another major-overlaps it, both ways round. |
| Rect.MajorOverlapExample | ccstruct/rect.h:271-284 | Example: a 6x6 box sharing 3 units on each axis with a 7x7 box overlaps it majorly; one sharing 2 with another 6x6 box does not. |
| IntProto.DerivedConstants | classify/intproto.h:39-63 | The derived sizes of the prototype and pruner tables have the values the header's formulas give. |
| IntProto.MaxNumIntProtosIn | classify/intproto.h:147 | The capacity of a class is its proto sets times the protos per set. |
| IntProto.ProtoIdDecomposition | classify/intproto.h:150-151 | A proto id is split into a set index and an index within the set, and this split is unique. |
| IntProto.ProtoIdRoundTrip | classify/intproto.h:150-151 | Recombining the set index and the index within the set gives back the proto id. |
| IntProto.ProtoWithinCapacity | classify/intproto.h:147-152 | A proto id below the class capacity falls in an allocated set. |
| IntProto.PPrunerPosition | classify/intproto.h:157-159 | The proto pruner word and bit of a proto lie within the pruner's word and bit ranges. |
| IntProto.PPrunerPositionsDistinct | classify/intproto.h:157-159 | Distinct protos of one set get distinct word and bit positions. |
| IntProto.PPrunerMaskSingleBit | classify/intproto.h:160 | The proto pruner mask is a single bit, the one at the proto's bit index. |
| IntProto.MaxNumClassesIn | classify/intproto.h:165 | The class capacity of a template is its pruners times the classes per pruner. |
| IntProto.CPrunerPosition | classify/intproto.h:173-176 | The class pruner id, word and bit of a class lie within their ranges. |
| IntProto.LegalIdsCount | classify/intproto.h:168 | The legal class ids up to a maximum are exactly the ids from one to that maximum: there are maximum-many of them, zero is not one and the maximum is. |
| IntProto.CPrunerIdInRange | classify/intproto.h:53-54 | A class index below the class limit has a class pruner id within the pruners needed for that limit. |
| IntProto.ClassWithinCapacity | classify/intproto.h:165-173 | A class index is below the capacity of a number of pruners exactly when its pruner id is below that number. |
| IntProto.CPrunerMaskInField | classify/intproto.h:177 | The class pruner mask is the class's two-bit field, in range of a 32-bit word. |
| IntProto.CPrunerMaskFieldValue | classify/intproto.h:177 | The mask is the maximum field value shifted to the class's bit position. |
| IntProto.CPrunerMasksDisjoint | classify/intproto.h:175-177 | Distinct classes sharing a pruner word get disjoint masks. |
| FeatDefs.RegistryConsistent | classify/featdefs.cpp:40-99 | There are four feature definitions, and each one's parameter count and circular-parameter count match its parameter table. |
| FeatDefs.ShortNamesDistinct | classify/featdefs.cpp:51-86 | No two feature types share a short name. |
| FeatDefs.FindShortName | classify/featdefs.cpp:238-242 | The search returns the first feature type with the given short name, or the ILLEGAL_SHORT_NAME error exactly when there is none. |
| FeatDefs.ShortNameToFeatureType | classify/featdefs.cpp:224-244 | A known short name gives a feature type carrying that name; an unknown one is the ILLEGAL_SHORT_NAME error. |
| FeatDefs.ShortNameRoundTrip | classify/featdefs.cpp:238-240 | Each feature type is found again from its own short name. |
| FeatDefs.NewCharDescription | classify/featdefs.cpp:127-148 | A new description has one slot per feature type and no feature set in any slot. |
| FeatDefs.WriteSetsFrom | classify/featdefs.cpp:177-181 | Writing emits a name and a set for each present feature set. |
| FeatDefs.WriteCharDescription | classify/featdefs.cpp:152-182 | The output starts with the number of present feature sets, at most the number of feature types, followed by a name and a set for each. |
| FeatDefs.ReadSets | classify/featdefs.cpp:211-217 | Reading keeps one slot per feature type. |
| FeatDefs.ReadSetsOnlyFillsNamed | classify/featdefs.cpp:211-217 | A slot filled by reading was already filled or was named in the input. |
| FeatDefs.ReadCharDescription | classify/featdefs.cpp:186-220 | A missing count or one outside 0 to the number of feature types is the ILLEGAL_NUM_SETS error; a successful read fills only named slots. |
| FeatDefs.ReadSetsNeverIllegalCount | classify/featdefs.cpp:207-217 | Reading the sets after a legal count never reports an illegal count. |
| FeatDefs.ReadNamedSet | classify/featdefs.cpp:213-216 | A name followed by a set stores the set in that feature type's slot. |
| FeatDefs.ReadWrittenSet | classify/featdefs.cpp:172-217 | Reading the first written pair of a present set stores that set. |
| FeatDefs.ReadWriteSetsFrom | classify/featdefs.cpp:172-217 | Reading back what was written from a given feature type on restores every slot from there on. |
| FeatDefs.WriteReadRoundTrip | classify/featdefs.cpp:152-220 | Reading a written description gives back the description. |
| FeatDefs.WriteEmpty | classify/featdefs.cpp:170-176 | An empty description is written as the count 0 alone. |
| MfOutline.ClassifyEdge | classify/mfoutline.cpp:902-946 | A vertical edge runs north or south with the largest float as slope; otherwise the slope is dy/dx, east-going edges point to the east half and west-going to the west half, an edge is diagonal exactly when its slope lies strictly between the two thresholds, and horizontal exactly when it is at most the lower one. |
| MfOutline.ClassifyEdgeIsCompass | classify/mfoutline.cpp:913-946 | The direction agrees with an independent compass definition by quadrant and slope band. |
| MfOutline.ComputeDirection | classify/mfoutline.cpp:875-948 | The start point gets the edge's slope and direction and the finish point records that direction as its previous direction. |
| MfOutline.FindDirectionChanges | classify/mfoutline.cpp:450-463 | A degenerate outline is unchanged; otherwise every point gets the direction of the edge it starts, and every previous direction is the direction of the point before. |
| MfOutline.DirectionsAllFound | classify/mfoutline.cpp:453-463 | After the loop every point carries its edge's heading and the previous directions are consistent. |
| MfOutline.NextDirectionChangeOffset | classify/mfoutline.cpp:1030-1038 | The distance to the next point with another direction is positive and below the outline's length, and every point in between keeps the direction. |
| MfOutline.NextDirectionChange | classify/mfoutline.cpp:1016-1039 | The next direction change is another point, with another direction, that starts a run, and all points in between keep the direction. |
| MfOutline.NoRunStartSkipped | classify/mfoutline.cpp:1034-1036 | No point strictly before the next direction change starts a run. |
| MfOutline.NextExtremity | classify/mfoutline.cpp:586-607 | The result is an extremity, and no point strictly between the start and it is one; if it is the start itself, no other point is one. |
| MfOutline.ChangeDirection | classify/mfoutline.cpp:808-830 | Every point from start up to but not including end gets the direction; end gets it as its previous direction; every other point is unchanged. |
| MfOutline.Mark | classify/mfoutline.cpp:560 | Marking sets the extremity flag of one point and changes nothing else. |
| MfOutline.NdcReadsOnlyDirections | classify/mfoutline.cpp:1030-1038 | The next direction change depends only on the directions. |
| MfOutline.MarkDirectionChanges | classify/mfoutline.cpp:532-565 | A degenerate outline is unchanged; otherwise exactly the points that start runs become extremities, in addition to those that already were, and nothing else changes. |
| MfOutline.MarkedAll | classify/mfoutline.cpp:556-563 | A full lap of the marking walk marks every run start and nothing else. |
| MfOutline.StretchY | classify/mfoutline.cpp:642-659 | With the ascender and descender stretch both 1.0, stretching leaves the value unchanged. |
| MfOutline.NormalizeOutline | classify/mfoutline.cpp:611-668 | Each point is moved to the baseline, shifted by the x origin and scaled, and nothing but its position changes. |
| MfOutline.NormalizeOutlineInvertible | classify/mfoutline.cpp:649-662 | With a non-zero scale each original point is recovered from its normalised image. |
| MfOutline.CharNormalizeOutline | classify/mfoutline.cpp:834-871 | Each point is translated to the centre and scaled per axis; nothing but its position changes. |
| MfOutline.CharNormalizeRoundTrip | classify/mfoutline.cpp:855-869 | With non-zero scales the inverse translation and scaling give back the outline. |
| MfOutline.ClampScales | classify/mfoutline.cpp:705-713 | The clamped y size is the computed one or the minimum, whichever is larger; the x size is the computed one raised to the minimum, and is then lowered to the maximum exactly when it exceeds the maximum and the y size is within its own maximum. |
| MfOutline.ClampKeepsInRange | classify/mfoutline.cpp:705-713 | With consistent x bounds, a size already within its bounds is kept, a y size below its minimum becomes the minimum, and the x size ends within its bounds unless y exceeds its maximum. |
| MfOutline.CharNormScales | classify/mfoutline.cpp:705-715 | Each scale factor exists exactly when its clamped size is non-zero, and then times that size gives the normalised range. |
| MfOutline.PositiveBoundsGiveScales | classify/mfoutline.cpp:705-715 | With positive lower bounds both scale factors exist. |
| MfOutline.ComputeBlobCenter | classify/mfoutline.cpp:129-130 | Each coordinate of the centre is within one half of the midpoint of the scaled corners. |
| MfOutline.BlobCenterExact | classify/mfoutline.cpp:129-130 | With a positive scale-up the centre is exactly the midpoint of the scaled corners. |
| EdgeNoise.ShorterThanNoise | classify/mfoutline.cpp:391-393 | For the square root d of a squared length, d below the noise length is the same as the squared comparison. |
| EdgeNoise.SeekDone | classify/mfoutline.cpp:385-405 | A full lap without finding two long runs of different directions means there are none. |
| EdgeNoise.SeekOneRun | classify/mfoutline.cpp:390-400 | One pass moves to the next direction change and stops exactly when a long run disagrees with the first long run. |
| EdgeNoise.SeekTwoLongRuns | classify/mfoutline.cpp:387-405 | The search ends at two different points exactly when two long runs run in different directions, and then at a long run. |
| EdgeNoise.RelabelStart | classify/mfoutline.cpp:410 | The relabelling walk starts from a long run with nothing relabelled. |
| EdgeNoise.RelabelDone | classify/mfoutline.cpp:411-420 | A full lap of the walk has filtered every run and changed only directions. |
| EdgeNoise.RelabelOneRun | classify/mfoutline.cpp:412-416 | One pass moves to the next direction change and keeps the walk's invariant. |
| EdgeNoise.RelabelRest | classify/mfoutline.cpp:411-420 | Finishing the walk filters every run and changes only directions. |
| EdgeNoise.RelabelShortRuns | classify/mfoutline.cpp:407-420 | Every short run takes the direction arriving at it, every long run keeps its own, and only directions change. |
| EdgeNoise.FilterEdgeNoise | classify/mfoutline.cpp:361-422 | Only directions change; a degenerate outline, or one without two long runs of different directions, is unchanged; otherwise every short run takes the direction recorded as arriving at it and every long run keeps its own. |
| EdgeNoise.ShortRunJoinsPrevious | classify/mfoutline.cpp:367-370 | When every point's previous direction is its predecessor's direction, a filtered short run runs the same way as the point before it after filtering, that is, as the preceding run. |
| Convert.NewPoint | classify/mfoutline.cpp:209-213 | A new point has the given position and hidden flag and is not an extremity. |
| Convert.LoopPoint | classify/mfoutline.cpp:209-213 | A polygon vertex becomes a point with its visibility, placed by the outline's placement, not an extremity. |
| Convert.LoopKeptIff | classify/mfoutline.cpp:203-218 | A point is kept from the polygon exactly when it comes from a vertex that moves away from its successor. |
| Convert.LoopKeptAll | classify/mfoutline.cpp:203-218 | When every vertex moves, every vertex is kept, in order. |
| Convert.ConvertLoop | classify/mfoutline.cpp:200-219 | The polygon is converted to the kept points in reverse order. |
| Convert.CompactKeptIff | classify/mfoutline.cpp:225-239 | A point is kept from the chain code exactly when a non-zero step leaves from it before the chain closes, and such points are never hidden. |
| Convert.ConvertCompact | classify/mfoutline.cpp:221-240 | The chain-coded outline is converted to the kept points, in reverse order, up to the step where it closes. |
| Convert.ConvertOutline | classify/mfoutline.cpp:159-267 | A missing outline, or one with neither a polygon nor a chain code, converts to the empty outline; otherwise the conversion of whichever form the mode uses. |
| Convert.PostOrderLength | classify/mfoutline.cpp:293-306 | The traversal visits every outline of the tree once. |
| Convert.PostOrderSnoc | classify/mfoutline.cpp:293-306 | Each sibling's children are visited before the sibling itself. |
| Convert.ConvertStep | classify/mfoutline.cpp:293-306 | Each sibling step pushes the sibling's conversion on top of its children's. |
| Convert.ConvertOutlines | classify/mfoutline.cpp:271-308 | The result is the conversion of every outline of the tree, children before parents, pushed onto the front of the given list, one per outline. |
| Convert.ConvertSibling | classify/mfoutline.cpp:294-304 | A sibling becomes a single converted outline. |
| PicoFeat.FeatureCount | classify/picofeat.cpp:198-200 | The number of features on a segment is at least one; when the length in feature lengths is at least one half it is that ratio rounded to the nearest whole number, and below one half it is one. |
| PicoFeat.FeatureCountUnique | classify/picofeat.cpp:198-200 | Any whole number of at least one meeting that rounding description is the feature count, so the description fixes the count. |
| PicoFeat.SegmentFeatures | classify/picofeat.cpp:196-220 | A segment yields that many features. |
| PicoFeat.ConvertSegmentToPicoFeat | classify/picofeat.cpp:169-221 | The segment's features are appended after the ones already found. |
| PicoFeat.CentreInside | classify/picofeat.cpp:203-219 | Every feature centre lies strictly between the segment's ends on each axis where they differ. |
| PicoFeat.CentresEvenlySpaced | classify/picofeat.cpp:203-219 | Consecutive centres are one step apart. |
| PicoFeat.CentresSpanSegment | classify/picofeat.cpp:203-219 | For any number of pieces, the first centre is half a step after the start and the last centre half a step before the end. |
| PicoFeat.EdgeFeaturesIff | classify/picofeat.cpp:252-259 | An edge yields features exactly when it is visible. |
| PicoFeat.OutlineFeaturesCount | classify/picofeat.cpp:251-264 | An outline yields at least one feature per visible edge, and none exactly when no edge is visible. |
| PicoFeat.FeaturesFromVisibleEdges | classify/picofeat.cpp:251-264 | Every feature comes from a visible edge. |
| PicoFeat.ConvertToPicoFeatures2 | classify/picofeat.cpp:225-266 | A degenerate outline adds nothing; otherwise the features of every visible edge are appended in order. |
| PicoFeat.SumXShift | classify/picofeat.cpp:287-296 | Shifting every feature by an origin lowers the sum of x by the count times the origin. |
| PicoFeat.ShiftByMeanCentres | classify/picofeat.cpp:287-296 | Shifting by the mean x leaves a sum of zero. |
| PicoFeat.CentringUnique | classify/picofeat.cpp:287-296 | Shifting by the mean x is the only uniform shift of x that leaves a sum of zero. |
| PicoFeat.CentredStays | classify/picofeat.cpp:291-295 | A shift by zero changes nothing. |
| PicoFeat.NormalizePicoX | classify/picofeat.cpp:270-297 | Only x changes, by the mean x, and the result's x values sum to zero. |
| PicoFeat.ExtractPicoFeatures | classify/picofeat.cpp:102-123 | In character mode the features of all outlines are returned as found; in baseline mode a non-empty set is shifted by its mean x, so x sums to zero with the same count and only x changed, and an empty set stays empty. |

## Left out

- elst.h, elst2.h and mfoutline.h are not part of this model. The inline
  iterator operations used by the modelled code (the constructor, set_to_list,
  add_to_end, add_after_then_move, extract, mark_cycle_pt, cycled_list,
  at_last, data) are modelled from their uses and carry no rows of their own.
- The checks compiled only under `_DEBUG` (null this, null list, the
  DONT_EXTRACT_DELETED and BAD_EXTRACTION_PTS errors) are not modelled: the
  model is the release build. The DONT_EXCHANGE_DELETED check in exchange is
  outside `_DEBUG` and is modelled.
- EListIterator.DataRelativeAt: data_relative's offset is an inT8, so the
  model keeps it in -128..127; the `_DEBUG` check for a negative offset on a
  singly linked list is not modelled, and negative offsets are left out there.
- EList.Sort: the comparator is modelled as an integer key per element;
  qsort leaves the order of equal keys open, and the model keeps them in list
  order. The malloc of the pointer array is not modelled.
- EList.InternalDeepCopy: the copy is modelled only into an empty destination,
  which is how the copy constructors and deep_copy use it.
- The copier, zapper and element deserialiser are calls into code that is not
  shown; they are parameters (a function, the zapped sequence, the stream of
  elements read).
- prep_serialise, internal_dump, serialise_asc and de_serialise_asc of both
  lists are left out: they are file I/O. ELIST's internal_de_dump is the same
  loop as ELIST2's without the prev pointer and is modelled only through
  EList2.InternalDeDump.
- EListIterator.ExtractSublist: the rest of the source list is reported as a
  rotation read from the element after the sublist, with the source's last
  pointer given separately.
- EListIterator.Exchange: the cycle point update of exchange, which copies the
  other iterator's cycle point, is kept as the source writes it.
- Integer widths: TBOX coordinates are inT16 and its area and list lengths are
  inT32; the model uses unbounded integers and does not model overflow.
- TBOX's float operations (scale, rotate, move by an FCOORD), intersection and
  bounding_union (declared only), plot and print are left out.
- ErrCode.Error: tprintf, abort and exit are modelled as the printed lines and
  the Disposition outcome; err_exit is not shown, and EXIT is modelled as
  Exited. The MSW32 message truncation and MAX_MSG buffer size are left out.
- FeatDefs.ReadCharDescription: feature sets are opaque tokens, since their
  reader is outside this model; DoError with ILLEGAL_SHORT_NAME or
  ILLEGAL_NUM_SETS is modelled as an Err result, and a token stream that runs
  out is a Truncated error, where the source's fscanf would not notice.
- MfOutline.NextExtremity requires that some point is an extremity; without
  one the source loops forever.
- MfOutline.MarkDirectionChanges and EdgeNoise.FilterEdgeNoise require a
  non-degenerate outline to contain a turn; without one NextDirectionChange
  loops forever.
- DegenerateOutline is in mfoutline.h and is modelled as an outline of fewer
  than two points.
- EdgeNoise.ShorterThanNoise: DistanceBetween is a square root; the model
  compares squared distances and proves that the two comparisons agree.
- Convert.ConvertOutline requires a Convertible outline: in baseline mode a
  missing polygon would be a null dereference, and a chain code must close.
  REALSCALE and the blob-relative placement are the `Place` parameter.
- Convert.ConvertOutlines: the outline type argument does not affect the
  result and is ignored.
- MfOutline.NormalizeOutline: BaselineAt and ComputeScaleFactor are not shown
  and are parameters; the ascender and descender stretches are fixed at 1.0 as
  in the source.
- NormalizeOutlines is modelled only through its character-mode scale
  clamping (MfOutline.ClampScales and MfOutline.CharNormScales); its float
  rounding is not modelled.
- ComputeOutlineStats, UpdateOutlineStats and FinishOutlineStats are left
  out: they need square roots. Their definition takes (x1, x2, y1, y2) at
  mfoutline.cpp:1043-1047 while the call at mfoutline.cpp:346-348 passes
  (x1, y1, x2, y2); this is not modelled.
- SmearExtremities is left out: it uses random numbers.
- Memory management (NewEdgePoint, FreeOutline, FreeOutlines,
  FreeMFOutline) and the initialisers InitMFOutlineVars and InitPicoFXVars
  are left out.
- MfOutline.ComputeBlobCenter: blob_bounding_box is not shown; the corners are
  inputs. CDiv models C's truncating division.
- MfOutline.CharNormScales: when a clamped size is zero the source still
  divides by it, giving an IEEE infinity or NaN; the model gives no scale
  factor (None) there and does not model the float result.
- PicoFeat.ExtractPicoFeatures: ConvertBlob and NormalizeOutlines happen
  before feature extraction, so the outlines come in already normalised; the
  MAX_PICO_FEATURES capacity of the feature set is not modelled.
- PicoFeat.NormalizePicoX: on an empty feature set the source divides 0 by 0
  but moves no feature; the model returns the empty set.

## Findings

| source | as written | input that shows it | evidently intended | confidence | as-written member | corrected member |
|---|---|---|---|---|---|---|
| ccutil/elst.cpp:483-488 | exchange across two lists writes the surroundings of each element as if they were four distinct links | links 1→1, 2→3, 3→2; this iterator on the one-element list [1], the other on 2 of [2, 3] | the first list becomes [2] and the second [1, 3] | not executed | EListIterator.ExchangeWithSingletonBreaksList | EListIterator.ExchangeWithSingletonCorrected |
| ccutil/elst.cpp:493-496 | when both iterators are on one list, `last` is updated for this iterator and then again for the other | list 1, 2, 3 (last 3); this iterator on 3, the other on 1 | the list reads 3, 2, 1 | not executed | EListIterator.ExchangeAtLastRotatesList | EListIterator.ExchangeAtLastCorrected |
| ccutil/elst2.cpp:483-492 | the doubly linked exchange across two lists writes both pointers of a one-element list's only link as if its neighbours were other links | next and prev both 1→1, 2→3, 3→2; this iterator on [1], the other on 2 of [2, 3] | the first list becomes [2] and the second [1, 3], in both directions | not executed | EList2Iterator.ExchangeWithSingletonBreaksList2 | EList2Iterator.ExchangeWithSingletonCorrected2 |
| ccutil/elst2.cpp:497-500 | when both iterators are on one list, `last` is updated for this iterator and then again for the other | list 1, 2, 3 (last 3); this iterator on 3, the other on 1 | the list reads 3, 2, 1 in both directions | not executed | EList2Iterator.ExchangeAtLastRotatesList2 | EList2Iterator.ExchangeAtLastCorrected2 |
