/**
 * The records of the alumni network, one datatype per interface of `types.ts`,
 * plus the chat `Message` the socket context builds. Optional scalar fields
 * are `Option`s; optional arrays are sequences, an absent array being the
 * empty one (every reader in the source falls back to `[]`). Optional
 * booleans are plain booleans, an absent one reading as `false`.
 */
module Types {
  import opened Wrappers

  type Id = string

  datatype Project = Project(
    id: Id,
    title: string,
    description: string,
    link: Option<string>,
    tags: seq<string>)

  datatype Experience = Experience(
    id: Id,
    company: string,
    role: string,
    period: string,
    description: string)

  datatype UserRole = Admin | Alumni | Student | Faculty | Mentor | Company | Teacher

  datatype SocialLinks = SocialLinks(
    linkedin: Option<string>,
    github: Option<string>,
    twitter: Option<string>,
    website: Option<string>)

  datatype User = User(
    id: Id,
    email: Option<string>,
    password: Option<string>,
    name: string,
    role: UserRole,
    department: string,
    batch: string,
    avatar: string,
    coverPhoto: Option<string>,
    company: Option<string>,
    position: Option<string>,
    bio: string,
    socialLinks: Option<SocialLinks>,
    skills: seq<string>,
    accomplishments: seq<string>,
    projects: seq<Project>,
    experience: seq<Experience>,
    isVerified: bool,
    connections: seq<Id>,
    isMentor: bool,
    mentoringSkills: seq<string>,
    mentorshipBio: Option<string>,
    lookingForMentorship: bool)

  /**
   * `user?.name || fallback`: the signed-in user's name when it is a
   * non-empty string, otherwise the fallback.
   */
  function NameOr(user: Option<User>, fallback: string): (r: string)
    ensures user.Some? && user.value.name != "" ==> r == user.value.name
    ensures user.None? || user.value.name == "" ==> r == fallback
  {
    if user.Some? && user.value.name != "" then user.value.name else fallback
  }

  /** With a non-empty fallback the displayed name is never empty. */
  lemma NameOrNonEmpty(user: Option<User>, fallback: string)
    requires fallback != ""
    ensures NameOr(user, fallback) != ""
  {
  }

  datatype Comment = Comment(
    id: Id,
    userId: Id,
    userName: string,
    userAvatar: string,
    content: string,
    timestamp: int)

  datatype MediaType = Image | Video

  datatype Media = Media(kind: MediaType, url: string)

  datatype Post = Post(
    id: Id,
    userId: Id,
    userName: string,
    userAvatar: string,
    userRole: UserRole,
    content: string,
    timestamp: int,
    media: seq<Media>,
    likes: int,
    likedBy: seq<Id>,
    comments: seq<Comment>)

  datatype JobType = FullTime | Internship | Contract

  datatype Job = Job(
    id: Id,
    title: string,
    company: string,
    location: string,
    kind: JobType,
    postedBy: string,
    postedByUserId: Option<Id>,
    salary: Option<string>,
    description: Option<string>,
    requirements: seq<string>)

  datatype EventType = Webinar | Meetup | Reunion

  /** The string an event type is stored as; the events search lower-cases it. */
  function EventTypeName(t: EventType): string {
    match t
    case Webinar => "Webinar"
    case Meetup => "Meetup"
    case Reunion => "Reunion"
  }

  datatype Event = Event(
    id: Id,
    title: string,
    date: string,
    time: string,
    kind: EventType,
    location: string,
    image: string,
    description: Option<string>,
    organizer: Option<string>,
    interestedCount: Option<int>)

  /**
   * Notification kinds. `Mentorship` is not in the declared union, but the
   * seeded store and the network page both create notifications of that kind.
   */
  datatype NotificationType = Connection | JobNotice | EventNotice | System | PostNotice | Mentorship

  datatype AppNotification = AppNotification(
    id: Id,
    userId: Id,
    title: string,
    message: string,
    kind: NotificationType,
    timestamp: int,
    isRead: bool,
    link: Option<string>)

  datatype RequestStatus = Pending | Accepted | Rejected | Completed

  datatype MentorshipRequest = MentorshipRequest(
    id: Id,
    mentorId: Id,
    menteeId: Id,
    topic: string,
    message: Option<string>,
    status: RequestStatus,
    createdAt: string)

  datatype Privacy = Public | Private

  datatype Group = Group(
    id: Id,
    name: string,
    description: string,
    image: Option<string>,
    privacy: Privacy,
    members: seq<Id>,
    createdBy: Id,
    createdAt: string)

  /** A chat message as the socket context holds it in its conversation buffer. */
  datatype Message = Message(
    id: Id,
    sender: Id,
    receiver: Id,
    content: string,
    isRead: bool,
    timestamp: int)
}
