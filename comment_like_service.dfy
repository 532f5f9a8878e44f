/**
 * Comment likes: a set of (user, comment) pairs with one row per pair.  Liking inserts the
 * pair, unliking deletes every row for it, and the two queries read the set.
 */
module CommentLikeService {
  import opened Wrappers
  import opened Query
  import opened Db

  /** What commentLike returns: the new row, or the failure message object instead of a throw. */
  datatype LikeOutcome = Liked(like: CommentLike) | LikeFailed(message: string)

  const LikeFailedMessage := "이미 좋아요를 누르셨거나 실패하였습니다."

  /** isLiked: a row for the pair exists. */
  function IsLiked(likes: seq<CommentLike>, userId: int, commentId: int): (r: bool)
    ensures r <==> exists i :: 0 <= i < |likes| && likes[i] == CommentLike(userId, commentId)
  {
    FindFirst(likes, (l: CommentLike) => l.userId == userId && l.commentId == commentId).Some?
  }

  /** commentLikeCount: the number of rows for that comment. */
  function CommentLikeCount(likes: seq<CommentLike>, commentId: int): (r: nat)
    ensures r <= |likes|
    ensures r == 0 <==> forall i :: 0 <= i < |likes| ==> likes[i].commentId != commentId
  {
    CountZero(likes, (l: CommentLike) => l.commentId == commentId);
    Count(likes, (l: CommentLike) => l.commentId == commentId)
  }

  /**
   * commentLike: inserts the pair.  The insert fails, and the failure object comes back, when
   * the pair is already stored or when the user or the comment does not exist.
   */
  method LikeComment(db: Database, userId: int, commentId: int) returns (r: LikeOutcome)
    requires db.Valid()
    modifies db`commentLikes
    ensures db.Valid()
    ensures r.LikeFailed? <==>
      || IsLiked(old(db.commentLikes), userId, commentId)
      || (forall i :: 0 <= i < |db.users| ==> db.users[i].id != userId)
      || (forall i :: 0 <= i < |db.comments| ==> db.comments[i].id != commentId)
    ensures r.LikeFailed? ==> r.message == LikeFailedMessage && db.commentLikes == old(db.commentLikes)
    ensures r.Liked? ==>
      r.like == CommentLike(userId, commentId) && db.commentLikes == old(db.commentLikes) + [r.like]
  {
    var pair := CommentLike(userId, commentId);
    var user := FindFirst(db.users, (u: User) => u.id == userId);
    var comment := FindFirst(db.comments, (c: Comment) => c.id == commentId);
    if IsLiked(db.commentLikes, userId, commentId) || user.None? || comment.None? {
      return LikeFailed(LikeFailedMessage);
    }
    assert forall i :: 0 <= i < |db.commentLikes| ==> db.commentLikes[i] != pair;
    db.commentLikes := db.commentLikes + [pair];
    r := Liked(pair);
  }

  /** The like table after deleting every row for the pair. */
  function Unlike(likes: seq<CommentLike>, userId: int, commentId: int): (r: seq<CommentLike>)
    ensures !IsLiked(r, userId, commentId)
    ensures forall k :: 0 <= k < |r| ==> r[k] in likes
    ensures forall j :: 0 <= j < |likes| && likes[j] != CommentLike(userId, commentId) ==> likes[j] in r
  {
    Filter(likes, (l: CommentLike) => l != CommentLike(userId, commentId))
  }

  /** commentUnlike: deletes every row for the pair and returns how many went. */
  method CommentUnlike(db: Database, userId: int, commentId: int) returns (count: nat)
    requires db.Valid()
    modifies db`commentLikes
    ensures db.Valid()
    ensures db.commentLikes == Unlike(old(db.commentLikes), userId, commentId)
    ensures count == |old(db.commentLikes)| - |db.commentLikes|
  {
    var before := db.commentLikes;
    db.commentLikes := Unlike(before, userId, commentId);
    UnlikeKeepsUnique(before, userId, commentId);
    count := |before| - |db.commentLikes|;
  }

  lemma {:induction false} UnlikeKeepsUnique(likes: seq<CommentLike>, userId: int, commentId: int)
    requires LikesUnique(likes)
    ensures LikesUnique(Unlike(likes, userId, commentId))
  {
    if |likes| > 0 {
      UnlikeKeepsUnique(likes[1..], userId, commentId);
      var tail := Unlike(likes[1..], userId, commentId);
      forall k | 0 <= k < |tail| ensures tail[k] != likes[0] {
        var j :| 0 <= j < |likes[1..]| && likes[1..][j] == tail[k];
        assert likes[j + 1] == tail[k];
      }
    }
  }

  /** Unliking a pair that was never liked changes nothing. */
  lemma UnlikeAbsentNoChange(likes: seq<CommentLike>, userId: int, commentId: int)
    requires !IsLiked(likes, userId, commentId)
    ensures Unlike(likes, userId, commentId) == likes
  {
    FilterAll(likes, (l: CommentLike) => l != CommentLike(userId, commentId));
  }

  /** A successful like adds one to that comment's count and leaves every other count alone. */
  lemma LikeCount(likes: seq<CommentLike>, userId: int, commentId: int, other: int)
    ensures CommentLikeCount(likes + [CommentLike(userId, commentId)], commentId) == CommentLikeCount(likes, commentId) + 1
    ensures other != commentId ==>
      CommentLikeCount(likes + [CommentLike(userId, commentId)], other) == CommentLikeCount(likes, other)
  {
    FilterAppend(likes, [CommentLike(userId, commentId)], (l: CommentLike) => l.commentId == commentId);
    FilterAppend(likes, [CommentLike(userId, commentId)], (l: CommentLike) => l.commentId == other);
  }

  /** A table without duplicates stays so without its first row, and that row is not repeated. */
  lemma TailUnique(likes: seq<CommentLike>)
    requires |likes| > 0 && LikesUnique(likes)
    ensures LikesUnique(likes[1..])
    ensures forall j :: 0 <= j < |likes[1..]| ==> likes[1..][j] != likes[0]
  {
    forall i, j | 0 <= i < j < |likes[1..]| ensures likes[1..][i] != likes[1..][j] {
      assert likes[1..][i] == likes[i + 1] && likes[1..][j] == likes[j + 1];
    }
    forall j | 0 <= j < |likes[1..]| ensures likes[1..][j] != likes[0] {
      assert likes[1..][j] == likes[j + 1];
    }
  }

  /** The pair is liked when it is the first row or is liked in the rest. */
  lemma LikedCons(likes: seq<CommentLike>, userId: int, commentId: int)
    requires |likes| > 0
    ensures IsLiked(likes, userId, commentId) <==>
              likes[0] == CommentLike(userId, commentId) || IsLiked(likes[1..], userId, commentId)
  {
    var pair := CommentLike(userId, commentId);
    if IsLiked(likes[1..], userId, commentId) {
      var j :| 0 <= j < |likes[1..]| && likes[1..][j] == pair;
      assert likes[j + 1] == pair;
    }
    if IsLiked(likes, userId, commentId) && likes[0] != pair {
      var j :| 0 <= j < |likes| && likes[j] == pair;
      assert likes[1..][j - 1] == pair;
    }
  }

  /** The count of a table is its first row's share plus the count of the rest. */
  lemma CountCons(likes: seq<CommentLike>, commentId: int)
    requires |likes| > 0
    ensures CommentLikeCount(likes, commentId) ==
              (if likes[0].commentId == commentId then 1 else 0) + CommentLikeCount(likes[1..], commentId)
  {
  }

  /** Unliking keeps the first row unless it is the pair, then unlikes the rest. */
  lemma UnlikeCons(likes: seq<CommentLike>, userId: int, commentId: int)
    requires |likes| > 0
    ensures Unlike(likes, userId, commentId) ==
              (if likes[0] == CommentLike(userId, commentId) then [] else [likes[0]]) + Unlike(likes[1..], userId, commentId)
  {
  }

  /** Unliking a liked pair takes exactly one from that comment's count; otherwise the count stays. */
  lemma {:induction false} UnlikeCount(likes: seq<CommentLike>, userId: int, commentId: int)
    requires LikesUnique(likes)
    ensures CommentLikeCount(Unlike(likes, userId, commentId), commentId)
              + (if IsLiked(likes, userId, commentId) then 1 else 0) == CommentLikeCount(likes, commentId)
  {
    if |likes| > 0 {
      var pair := CommentLike(userId, commentId);
      var tail := likes[1..];
      TailUnique(likes);
      UnlikeCount(tail, userId, commentId);
      LikedCons(likes, userId, commentId);
      UnlikeCons(likes, userId, commentId);
      CountCons(likes, commentId);
      if likes[0] == pair {
        assert !IsLiked(tail, userId, commentId);
        assert Unlike(likes, userId, commentId) == Unlike(tail, userId, commentId);
      } else {
        var after := Unlike(likes, userId, commentId);
        assert after[1..] == Unlike(tail, userId, commentId);
        CountCons(after, commentId);
      }
    }
  }
}
